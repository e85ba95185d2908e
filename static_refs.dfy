/**
 * The decisions the converter takes about static-file references: which tag
 * attribute names a local file, whether a reference is left alone, how a
 * `url(...)` occurrence in a stylesheet is rewritten, and which files are
 * copied or written as a consequence.
 *
 * The file system and the library functions the converter consults are given
 * as an `Env`: its function-typed fields stand for code outside this model.
 */
module StaticRefs {
  import opened Wrappers
  import opened Strings
  import opened Sanitize

  /** A stylesheet as the `url(...)` pattern splits it: the text between matches, and each match
      (`whole` is the entire match, `target` its captured reference). */
  datatype CssPiece = Plain(text: string) | UrlCall(whole: string, target: string)

  datatype Env = Env(
    appName: string,                        // app_name
    indexDir: string,                       // os.path.dirname(index_file)
    staticDir: string,                      // os.path.join(app_name, 'static', app_name)
    existing: set<string>,                  // the paths for which os.path.exists holds
    hasScheme: string -> bool,              // urlparse(p).scheme is non-empty
    normJoin: (string, string) -> string,   // os.path.normpath(os.path.join(base, p))
    dirname: string -> string,              // os.path.dirname
    relpath: (string, string) -> string,    // os.path.relpath(p, start)
    stylesheet: string -> seq<CssPiece>)    // a stylesheet's text, split by the url(...) pattern

  /** What happens to the file system: `shutil.copy2(src, dst)` or writing a file. */
  datatype Effect = Copy(src: string, dst: string) | Write(path: string, content: string)

  /** The text that replaces a piece of input, with the file effects replacing it causes. */
  datatype Rewrite = Rewrite(text: string, effects: seq<Effect>)

  /** Absolute URLs, data URIs and fragment identifiers are never rewritten inside stylesheets. */
  predicate IsRemoteOrInline(url: string) {
    StartsWith(url, "http://") || StartsWith(url, "https://") || StartsWith(url, "data:") || StartsWith(url, "#")
  }

  /** `url.split('?', 1)` turned into a file path and the parameters `'?' + rest` (or `""`). */
  function SplitQuery(url: string): (r: (string, string))
    ensures '?' !in r.0
    ensures r.1 == [] || r.1[0] == '?'
    ensures r.0 + r.1 == url
  {
    var k := IndexOf(url, '?');
    if k < |url| then
      assert url[..k] + ("?" + url[k + 1..]) == url;
      (url[..k], "?" + url[k + 1..])
    else
      (url, "")
  }

  /** The file a stylesheet reference resolves to, relative to the stylesheet's directory. */
  function CssTargetPath(env: Env, cssPath: string, target: string): string {
    env.normJoin(env.dirname(cssPath), SplitQuery(Strip(target)).0)
  }

  /** The public path of a copied file: `static_dir` replaced by `/static/<app>`, backslashes by slashes. */
  function PublicPath(env: Env, newPath: string): (r: string)
    ensures '\\' !in r
  {
    ReplaceChar(ReplaceAll(newPath, env.staticDir, "/static/" + env.appName), '\\', '/')
  }

  /** `url("<path><params>")`, the form a rewritten match takes. */
  function CssUrl(path: string, params: string): (r: string)
    ensures StartsWith(r, "url(\"")
    ensures EndsWith(r, params + "\")")
  {
    var r := "url(\"" + path + params + "\")";
    assert r[..5] == "url(\"";
    assert r[|r| - |params + "\")"|..] == params + "\")";
    r
  }

  /** `replace_with_static`: the text that replaces one `url(...)` match. */
  function ReplaceWithStatic(env: Env, cssPath: string, whole: string, target: string): Rewrite {
    var url := Strip(target);
    if IsRemoteOrInline(url) then Rewrite(whole, [])
    else
      var (filePath, urlParams) := SplitQuery(url);
      var source := env.normJoin(env.dirname(cssPath), filePath);
      if source in env.existing then
        var sanitized := SanitizeFilename(env.relpath(source, env.indexDir));
        var newPath := env.normJoin(env.staticDir, sanitized);
        Rewrite(CssUrl(PublicPath(env, newPath), urlParams), [Copy(source, newPath)])
      else
        Rewrite(whole, [])
  }

  /** Absolute URLs, data URIs and fragments are echoed exactly and copy nothing; a match that
      copies nothing is echoed exactly (so is a missing file); a match that copies one file copies
      the existing file it resolves to and becomes `url("...")` ending with its query verbatim. */
  lemma ReplaceWithStaticSpec(env: Env, cssPath: string, whole: string, target: string)
    ensures var r := ReplaceWithStatic(env, cssPath, whole, target);
      && (IsRemoteOrInline(Strip(target)) ==> r == Rewrite(whole, []))
      && (r.effects == [] ==> r.text == whole)
      && (r.effects != [] ==>
            && !IsRemoteOrInline(Strip(target))
            && |r.effects| == 1 && r.effects[0].Copy? && r.effects[0].src == CssTargetPath(env, cssPath, target)
            && CssTargetPath(env, cssPath, target) in env.existing
            && r.effects[0].dst == env.normJoin(env.staticDir, SanitizeFilename(env.relpath(r.effects[0].src, env.indexDir)))
            && r.text == CssUrl(PublicPath(env, r.effects[0].dst), SplitQuery(Strip(target)).1)
            && StartsWith(r.text, "url(\"")
            && EndsWith(r.text, SplitQuery(Strip(target)).1 + "\")"))
  {
  }

  /** A match is rewritten, and its file copied, exactly when it is local and its file exists. */
  lemma ReplaceWithStaticRewrites(env: Env, cssPath: string, whole: string, target: string)
    ensures ReplaceWithStatic(env, cssPath, whole, target).effects != [] <==>
      !IsRemoteOrInline(Strip(target)) && CssTargetPath(env, cssPath, target) in env.existing
  {
  }

  /** The stylesheet text the pieces were cut from. */
  function CssSource(pieces: seq<CssPiece>): string
    decreases |pieces|
  {
    if |pieces| == 0 then ""
    else (match pieces[0] case Plain(t) => t case UrlCall(w, _) => w) + CssSource(pieces[1..])
  }

  /** One piece of a stylesheet after substitution. */
  function RewritePiece(env: Env, cssPath: string, p: CssPiece): Rewrite {
    match p
    case Plain(t) => Rewrite(t, [])
    case UrlCall(w, t) => ReplaceWithStatic(env, cssPath, w, t)
  }

  /** `re.sub(pattern, replace_with_static, css_content)`: every match replaced, the rest kept. */
  function RewriteCss(env: Env, cssPath: string, pieces: seq<CssPiece>): Rewrite
    decreases |pieces|
  {
    if |pieces| == 0 then Rewrite("", [])
    else
      var head := RewritePiece(env, cssPath, pieces[0]);
      var tail := RewriteCss(env, cssPath, pieces[1..]);
      Rewrite(head.text + tail.text, head.effects + tail.effects)
  }

  /** Rewriting a stylesheet only copies existing files, and a stylesheet none of whose matches
      copies anything comes out exactly as it went in. */
  lemma {:induction false} RewriteCssSpec(env: Env, cssPath: string, pieces: seq<CssPiece>)
    ensures var r := RewriteCss(env, cssPath, pieces);
      && (forall e :: e in r.effects ==> e.Copy? && e.src in env.existing)
      && (r.effects == [] ==> r.text == CssSource(pieces))
    decreases |pieces|
  {
    if |pieces| > 0 {
      RewriteCssSpec(env, cssPath, pieces[1..]);
      match pieces[0]
      case Plain(_) =>
      case UrlCall(w, t) => ReplaceWithStaticSpec(env, cssPath, w, t);
    }
  }

  /** Rewriting a stylesheet piece by piece: the rewrite of a concatenation is the concatenation of rewrites. */
  lemma {:induction false} RewriteCssConcat(env: Env, cssPath: string, a: seq<CssPiece>, b: seq<CssPiece>)
    ensures RewriteCss(env, cssPath, a + b).text == RewriteCss(env, cssPath, a).text + RewriteCss(env, cssPath, b).text
    ensures RewriteCss(env, cssPath, a + b).effects == RewriteCss(env, cssPath, a).effects + RewriteCss(env, cssPath, b).effects
    decreases |a|
  {
    if |a| > 0 {
      var ab := a + b;
      assert ab[0] == a[0];
      assert ab[1..] == a[1..] + b;
      RewriteCssConcat(env, cssPath, a[1..], b);
      var h := RewritePiece(env, cssPath, a[0]);
      var t := RewriteCss(env, cssPath, a[1..]);
      var u := RewriteCss(env, cssPath, b);
      AppendAssoc(h.text, t.text, u.text);
      AppendAssoc(h.effects, t.effects, u.effects);
    } else {
      assert a + b == b;
    }
  }

  /** `scan_css_for_static_files`: the copies made for a stylesheet's references, then the
      rewritten stylesheet written over the stylesheet's own copy. */
  function ScanCss(env: Env, cssPath: string, cssSanitizedName: string): seq<Effect> {
    var rewritten := RewriteCss(env, cssPath, env.stylesheet(cssPath));
    rewritten.effects + [Write(env.normJoin(env.staticDir, cssSanitizedName), rewritten.text)]
  }

  /** Scanning a stylesheet copies only existing files and ends by writing the rewritten
      stylesheet at the stylesheet's own destination; when nothing was copied, what is written
      is the stylesheet's text unchanged. */
  lemma ScanCssSpec(env: Env, cssPath: string, cssSanitizedName: string)
    ensures var r := ScanCss(env, cssPath, cssSanitizedName);
      var rewritten := RewriteCss(env, cssPath, env.stylesheet(cssPath));
      && |r| > 0
      && r[|r| - 1] == Write(env.normJoin(env.staticDir, cssSanitizedName), rewritten.text)
      && (rewritten.effects == [] ==> r[|r| - 1].content == CssSource(env.stylesheet(cssPath)))
      && forall i :: 0 <= i < |r| - 1 ==> r[i].Copy? && r[i].src in env.existing
  {
    RewriteCssSpec(env, cssPath, env.stylesheet(cssPath));
  }

  /** The placeholder a rewritten attribute receives. */
  function StaticTag(appName: string, sanitizedName: string): string {
    "{% static '" + appName + "/" + sanitizedName + "' %}"
  }

  /** The condition under which `process_static_file` rewrites an attribute: it is present and
      non-empty, has no URI scheme, and names an existing file next to the index file. */
  predicate Rewritable(env: Env, value: Option<string>) {
    && value.Some?
    && |value.value| > 0
    && !env.hasScheme(value.value)
    && env.normJoin(env.indexDir, value.value) in env.existing
  }

  /** The value `process_static_file` leaves in the attribute: the `static` placeholder of the
      sanitized reference when it is rewritable, the old value otherwise. */
  function NewAttrValue(env: Env, value: Option<string>): Option<string> {
    if Rewritable(env, value) then Some(StaticTag(env.appName, SanitizeFilename(value.value))) else value
  }

  /** The copies and writes `process_static_file` performs: the referenced file copied to its
      sanitized destination and, for a stylesheet, the scan of that stylesheet. */
  function AttrEffects(env: Env, value: Option<string>, isCss: bool): seq<Effect> {
    if Rewritable(env, value) then
      var originalPath := value.value;
      var localPath := env.normJoin(env.indexDir, originalPath);
      var sanitizedName := SanitizeFilename(originalPath);
      var newPath := env.normJoin(env.staticDir, sanitizedName);
      [Copy(localPath, newPath)] + (if isCss then ScanCss(env, localPath, sanitizedName) else [])
    else
      []
  }

  /** An attribute changes, and files are copied, exactly when it is rewritable: present, non-empty,
      without a scheme and naming an existing file. The first effect is then the copy of that file
      to its sanitized destination, followed by more effects exactly for a stylesheet, the last of
      which writes the rewritten stylesheet over that same copy. */
  lemma ProcessStaticFileSpec(env: Env, value: Option<string>, isCss: bool)
    ensures NewAttrValue(env, value) != value <==> Rewritable(env, value)
    ensures AttrEffects(env, value, isCss) != [] <==> Rewritable(env, value)
    ensures Rewritable(env, value) ==>
      var name := SanitizeFilename(value.value);
      var effects := AttrEffects(env, value, isCss);
      && effects[0] == Copy(env.normJoin(env.indexDir, value.value), env.normJoin(env.staticDir, name))
      && (isCss <==> |effects| > 1)
      && (isCss ==> effects[|effects| - 1].Write? && effects[|effects| - 1].path == effects[0].dst)
  {
  }

  /** An element of the document, with its `rel` tokens and its attributes. */
  datatype Tag = Tag(name: string, rel: seq<string>, attrs: map<string, string>)

  /** The attribute of `t` that `find_and_copy_static_files` processes, and whether it names a stylesheet. */
  function RefAttr(t: Tag): Option<(string, bool)> {
    if t.name == "link" && "stylesheet" in t.rel then Some(("href", true))
    else if t.name == "script" then Some(("src", false))
    else if t.name == "img" then Some(("src", false))
    else None
  }

  /** `tag.get(attr)`. */
  function Get(m: map<string, string>, k: string): Option<string> {
    if k in m then Some(m[k]) else None
  }

  /** The element after one iteration of `find_and_copy_static_files`. */
  function ProcessTag(env: Env, t: Tag): Tag {
    match RefAttr(t)
    case None => t
    case Some((attr, _)) =>
      var v := NewAttrValue(env, Get(t.attrs, attr));
      if v.Some? && attr in t.attrs then t.(attrs := t.attrs[attr := v.value]) else t
  }

  /** The file effects of one iteration of `find_and_copy_static_files`. */
  function TagEffects(env: Env, t: Tag): seq<Effect> {
    match RefAttr(t)
    case None => []
    case Some((attr, isCss)) => AttrEffects(env, Get(t.attrs, attr), isCss)
  }

  /** At most the element's own reference attribute changes; it changes, and files are copied,
      exactly when its value is rewritable. */
  lemma ProcessTagFrame(env: Env, t: Tag)
    ensures var r := ProcessTag(env, t);
      && r.name == t.name && r.rel == t.rel && r.attrs.Keys == t.attrs.Keys
      && (forall a :: a in t.attrs && (RefAttr(t).None? || a != RefAttr(t).value.0) ==> r.attrs[a] == t.attrs[a])
      && (RefAttr(t).None? ==> r == t && TagEffects(env, t) == [])
      && (RefAttr(t).Some? ==>
            (r == t <==> !Rewritable(env, Get(t.attrs, RefAttr(t).value.0))) &&
            (TagEffects(env, t) == [] <==> !Rewritable(env, Get(t.attrs, RefAttr(t).value.0))))
  {
  }

  /** The elements after `find_and_copy_static_files`: each processed on its own. */
  function ProcessTags(env: Env, ts: seq<Tag>): seq<Tag> {
    seq(|ts|, i requires 0 <= i < |ts| => ProcessTag(env, ts[i]))
  }

  /** The file effects of `find_and_copy_static_files`, element after element. */
  function TagsEffects(env: Env, ts: seq<Tag>): seq<Effect>
    decreases |ts|
  {
    if |ts| == 0 then [] else TagsEffects(env, ts[..|ts| - 1]) + TagEffects(env, ts[|ts| - 1])
  }

  /** Processing one more element appends its effects. */
  lemma TagsEffectsSnoc(env: Env, ts: seq<Tag>, i: nat)
    requires i < |ts|
    ensures TagsEffects(env, ts[..i + 1]) == TagsEffects(env, ts[..i]) + TagEffects(env, ts[i])
  {
    assert ts[..i + 1][..i] == ts[..i];
  }

  /** Remote, empty, missing and non-asset references are never touched: when no element has a
      rewritable reference, no element changes and no file is copied or written. */
  lemma {:induction false} ProcessTagsUntouched(env: Env, ts: seq<Tag>)
    requires forall i :: 0 <= i < |ts| && RefAttr(ts[i]).Some? ==> !Rewritable(env, Get(ts[i].attrs, RefAttr(ts[i]).value.0))
    ensures ProcessTags(env, ts) == ts
    ensures TagsEffects(env, ts) == []
    decreases |ts|
  {
    forall i | 0 <= i < |ts| ensures ProcessTag(env, ts[i]) == ts[i] {
      ProcessTagFrame(env, ts[i]);
    }
    if |ts| > 0 {
      ProcessTagFrame(env, ts[|ts| - 1]);
      ProcessTagsUntouched(env, ts[..|ts| - 1]);
    }
  }
}
