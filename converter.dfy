/**
 * The converter object: the sections found by `analyze_template` and the menu
 * items found while rewriting navbar links are fields it updates in place; the
 * files it copies and writes are recorded in a ghost log. Each method does what
 * the corresponding Python method does, step by step, and is proved against the
 * specification functions of its module.
 */
module Converter {
  import opened Wrappers
  import opened Strings
  import opened StaticRefs
  import opened Sections
  import opened Navbar

  class DjangoTemplateConverter {
    /** `app_name`, `index_dir` and `static_dir`, fixed when the converter is made, with the file
        system and library functions they are used with. */
    const env: Env
    var sections: map<string, Entry>
    var menuItems: set<string>
    /** The file-system effects so far: copies and writes, in the order they happen. */
    ghost var log: seq<Effect>

    constructor (env: Env)
      ensures this.env == env
      ensures sections == map[] && menuItems == {} && log == []
    {
      this.env := env;
      sections := map[];
      menuItems := {};
      log := [];
    }

    /** `find_and_copy_static_files`: rewrites each element's reference attribute in place. */
    method FindAndCopyStaticFiles(tags: array<Tag>)
      modifies this`log, tags
      ensures tags[..] == ProcessTags(env, old(tags[..]))
      ensures log == old(log) + TagsEffects(env, old(tags[..]))
    {
      ghost var original := tags[..];
      var i := 0;
      while i < tags.Length
        invariant 0 <= i <= tags.Length
        invariant forall k :: 0 <= k < i ==> tags[k] == ProcessTag(env, original[k])
        invariant forall k :: i <= k < tags.Length ==> tags[k] == original[k]
        invariant log == old(log) + TagsEffects(env, original[..i])
      {
        TagsEffectsSnoc(env, original, i);
        AppendAssoc(old(log), TagsEffects(env, original[..i]), TagEffects(env, original[i]));
        ProcessElement(tags, i);
        i := i + 1;
      }
      assert original[..tags.Length] == original;
    }

    /** One iteration of `find_and_copy_static_files`: the element at `i` is processed in place
        (`process_static_file` on its reference attribute) and the others are left alone. */
    method ProcessElement(tags: array<Tag>, i: nat)
      requires i < tags.Length
      modifies this`log, tags
      ensures tags[i] == ProcessTag(env, old(tags[i]))
      ensures forall k :: 0 <= k < tags.Length && k != i ==> tags[k] == old(tags[k])
      ensures log == old(log) + TagEffects(env, old(tags[i]))
    {
      log := log + TagEffects(env, tags[i]);
      tags[i] := ProcessTag(env, tags[i]);
    }

    /** `analyze_template`: the loop over the document's comments. */
    method AnalyzeTemplate(comments: seq<string>)
      modifies this`sections
      ensures sections == Analyze(old(sections), comments)
    {
      ghost var ms := Markers(comments);
      var i := 0;
      while i < |comments|
        invariant 0 <= i <= |comments|
        invariant sections == Fold(old(sections), ms[..i])
      {
        FoldSnoc(old(sections), ms, i);
        AnalyzeComment(comments[i], i);
        i := i + 1;
      }
      assert ms[..|comments|] == ms;
    }

    /** The body of the loop of `analyze_template` for the comment at index `i`. */
    method AnalyzeComment(comment: string, i: nat)
      modifies this`sections
      ensures sections == Step(old(sections), Classify(comment), i)
    {
      var stripped := Strip(comment);
      if Contains(stripped, "Start") {
        var sectionName := Strip(FirstField(stripped));
        if |sectionName| > 0 {
          sections := sections[sectionName := Entry(i, None)];
        }
      } else if Contains(stripped, "End") {
        var sectionName := Strip(FirstField(stripped));
        if |sectionName| > 0 && sectionName in sections {
          sections := sections[sectionName := sections[sectionName].(end := Some(i))];
        }
      }
    }

    /** `extract_section`: the markup of the siblings after the first `<name> Start` comment,
        up to a comment containing `<name> End`, a false sibling or the last sibling. */
    method ExtractSection(document: seq<Node>, sectionName: string) returns (content: string)
      ensures content == SectionText(document, sectionName)
    {
      var startComment := sectionName + " Start";
      var endComment := sectionName + " End";
      var startIdx := 0;
      while startIdx < |document| && !IsCommentWith(document[startIdx], startComment)
        invariant 0 <= startIdx <= |document|
        invariant forall k :: 0 <= k < startIdx ==> !IsCommentWith(document[k], startComment)
      {
        startIdx := startIdx + 1;
      }
      if startIdx == |document| {
        return "";
      }
      assert FirstComment(document, startComment, 0) == Some(startIdx);
      content := CollectUntil(document, startIdx + 1, endComment);
    }

    /** The walk of `extract_section` over the siblings from `from`: the markup of the non-comment
        ones, up to a false sibling or a comment containing `endComment`. */
    method CollectUntil(document: seq<Node>, from: nat, endComment: string) returns (content: string)
      requires from <= |document|
      ensures content == Markup(document[from..StopIndex(document, from, endComment)])
    {
      ghost var stop := StopIndex(document, from, endComment);
      content := "";
      var k := from;
      while k < |document| && !IsCommentWith(document[k], endComment) && Truthy(document[k])
        invariant from <= k <= stop
        invariant content == Markup(document[from..k])
        decreases |document| - k
      {
        MarkupExtend(document, from, k);
        if !document[k].Comment? {
          content := content + Str(document[k]);
        }
        k := k + 1;
      }
    }

    /** `update_navbar_links_in_content`: rewrites every page link and records it as a menu item. */
    method UpdateNavbarLinksInContent(content: seq<Piece>) returns (updated: string)
      modifies this`menuItems
      ensures updated == Render(content)
      ensures menuItems == old(menuItems) + Linked(content)
    {
      updated := "";
      var i := 0;
      while i < |content|
        invariant 0 <= i <= |content|
        invariant updated == Render(content[..i])
        invariant menuItems == old(menuItems) + Linked(content[..i])
      {
        RenderSnoc(content, i);
        var replacement := ReplacePiece(content[i]);
        updated := updated + replacement;
        i := i + 1;
      }
      assert content[..|content|] == content;
    }

    /** One step of `re.sub` in `update_navbar_links_in_content`: text between matches is kept,
        and a match is replaced by the nested `replace_href`. */
    method ReplacePiece(p: Piece) returns (replacement: string)
      modifies this`menuItems
      ensures replacement == RenderPiece(p)
      ensures menuItems == old(menuItems) + ItemsOf(p)
    {
      match p {
        case Text(t) =>
          replacement := t;
        case Href(value) =>
          replacement := ReplaceHrefAndRecord(value);
      }
    }

    /** The nested `replace_href` of `update_navbar_links_in_content`: the replacement of one
        match, recording the stripped link in `menu_items` when it names a page. */
    method ReplaceHrefAndRecord(value: string) returns (replacement: string)
      modifies this`menuItems
      ensures replacement == ReplaceHref(value)
      ensures menuItems == old(menuItems) + ItemsOf(Href(value))
    {
      var href := Strip(value);
      if EndsWith(href, ".html") {
        menuItems := menuItems + {href};
      }
      replacement := ReplaceHref(value);
    }
  }
}
