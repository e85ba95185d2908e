/**
 * Comment-delimited sections. `analyze_template` folds over the document's
 * comments and records, per section name, where its `Start` marker is and,
 * possibly, its `End` marker; `extract_section` walks the siblings that follow
 * a section's first `Start` comment and concatenates the non-comment ones.
 *
 * The document is a flat sequence of sibling nodes; its comments, in order,
 * are what the fold sees.
 */
module Sections {
  import opened Wrappers
  import opened Strings

  /** What `analyze_template` records for a section: `{'start': i}`, perhaps with `'end': j`. */
  datatype Entry = Entry(start: nat, end: Option<nat>)

  /** A comment marks a start when its stripped text contains `Start` anywhere. */
  predicate IsStartMarker(comment: string) {
    Contains(Strip(comment), "Start")
  }

  /** A comment marks an end when it is not a start and its stripped text contains `End`. */
  predicate IsEndMarker(comment: string) {
    !IsStartMarker(comment) && Contains(Strip(comment), "End")
  }

  /** `comment.strip().split(' ')[0].strip()`. */
  function NameOf(comment: string): string {
    Strip(FirstField(Strip(comment)))
  }

  /** What a comment means to `analyze_template`. A comment containing `Start` whose name is empty
      is no marker at all: it is not reconsidered as an end. */
  datatype Marker = StartOf(name: string) | EndOf(name: string) | NoMarker

  function Classify(comment: string): (r: Marker)
    ensures r.StartOf? <==> IsStartMarker(comment) && NameOf(comment) != ""
    ensures r.EndOf? <==> IsEndMarker(comment) && NameOf(comment) != ""
    ensures !r.NoMarker? ==> r.name == NameOf(comment) && r.name != ""
  {
    var name := NameOf(comment);
    if IsStartMarker(comment) then (if |name| > 0 then StartOf(name) else NoMarker)
    else if IsEndMarker(comment) then (if |name| > 0 then EndOf(name) else NoMarker)
    else NoMarker
  }

  function Markers(comments: seq<string>): (r: seq<Marker>)
    ensures |r| == |comments|
    ensures forall j :: 0 <= j < |comments| ==> r[j] == Classify(comments[j])
  {
    seq(|comments|, j requires 0 <= j < |comments| => Classify(comments[j]))
  }

  /** The name of a comment with non-blank text is never empty: it is the first space-free word
      of the stripped text, itself stripped. */
  lemma NameOfNonBlank(comment: string)
    requires |Strip(comment)| > 0
    ensures var name := NameOf(comment);
      && |name| > 0 && ' ' !in name && StartsWith(Strip(comment), name)
  {
    var stripped := Strip(comment);
    StripStart(comment);
    var ff := FirstField(stripped);
    assert |ff| > 0 && ff[0] == stripped[0];
    assert TrimLeft(ff) == ff;
    TrimRightSpec(ff);
    var name := TrimRight(ff);
    assert |name| > 0;
    assert name == stripped[..|name|];
  }

  /** A comment is a start marker exactly when its text contains `Start`, and an end marker exactly
      when it contains `End` but not `Start`; the name is then the first word of the stripped text
      and is never empty, so the `if section_name:` tests always pass. */
  lemma ClassifyByContainment(comment: string)
    ensures var r := Classify(comment);
      && (r.StartOf? <==> Contains(comment, "Start"))
      && (r.EndOf? <==> !Contains(comment, "Start") && Contains(comment, "End"))
      && (!r.NoMarker? ==> |r.name| > 0 && ' ' !in r.name && StartsWith(Strip(comment), r.name))
  {
    ContainsStrip(comment, "Start");
    ContainsStrip(comment, "End");
    var stripped := Strip(comment);
    if Contains(stripped, "Start") {
      ContainsLength(stripped, "Start");
      NameOfNonBlank(comment);
    } else if Contains(stripped, "End") {
      ContainsLength(stripped, "End");
      NameOfNonBlank(comment);
    }
  }

  /** One iteration of the loop of `analyze_template`, for marker number `i`. */
  function Step(sections: map<string, Entry>, marker: Marker, i: nat): map<string, Entry> {
    match marker
    case StartOf(name) => sections[name := Entry(i, None)]
    case EndOf(name) => if name in sections then sections[name := sections[name].(end := Some(i))] else sections
    case NoMarker => sections
  }

  /** The loop of `analyze_template` over a sequence of markers, starting from `sections`. */
  function Fold(sections: map<string, Entry>, ms: seq<Marker>): map<string, Entry>
    decreases |ms|
  {
    if |ms| == 0 then sections
    else Step(Fold(sections, ms[..|ms| - 1]), ms[|ms| - 1], |ms| - 1)
  }

  /** One more marker is one more step of the fold. */
  lemma FoldSnoc(sections: map<string, Entry>, ms: seq<Marker>, i: nat)
    requires i < |ms|
    ensures Fold(sections, ms[..i + 1]) == Step(Fold(sections, ms[..i]), ms[i], i)
  {
    assert ms[..i + 1][..i] == ms[..i];
  }

  /** The loop of `analyze_template` over the document's comments. */
  function Analyze(sections: map<string, Entry>, comments: seq<string>): map<string, Entry> {
    Fold(sections, Markers(comments))
  }

  /** What the entry `e` for section `k` must be after the fold over `ms`: `start` is the last
      marker opening `k`, and `end`, if any, the last marker closing `k` after it. */
  ghost predicate EntryFor(ms: seq<Marker>, k: string, e: Entry) {
    && e.start < |ms| && ms[e.start] == StartOf(k)
    && (forall j :: e.start < j < |ms| ==> ms[j] != StartOf(k))
    && match e.end
       case None => forall j :: e.start < j < |ms| ==> ms[j] != EndOf(k)
       case Some(x) =>
         && e.start < x < |ms| && ms[x] == EndOf(k)
         && forall j :: x < j < |ms| ==> ms[j] != EndOf(k)
  }

  /** `sections` has an entry for exactly the names some marker of `ms` opens, each as `EntryFor` says. */
  ghost predicate Describes(sections: map<string, Entry>, ms: seq<Marker>) {
    && (forall k :: k in sections ==> EntryFor(ms, k, sections[k]))
    && (forall j :: 0 <= j < |ms| && ms[j].StartOf? ==> ms[j].name in sections)
  }

  lemma StepEntry(m: map<string, Entry>, ms: seq<Marker>, c: Marker, k: string)
    requires Describes(m, ms)
    requires k in Step(m, c, |ms|)
    ensures EntryFor(ms + [c], k, Step(m, c, |ms|)[k])
  {
  }

  lemma StepDescribes(m: map<string, Entry>, ms: seq<Marker>, c: Marker)
    requires Describes(m, ms)
    ensures Describes(Step(m, c, |ms|), ms + [c])
  {
  }

  /** The fold from no sections describes all the markers it has seen. */
  lemma {:induction false} FoldDescribes(ms: seq<Marker>)
    ensures Describes(Fold(map[], ms), ms)
    decreases |ms|
  {
    if |ms| > 0 {
      var front := ms[..|ms| - 1];
      FoldDescribes(front);
      StepDescribes(Fold(map[], front), front, ms[|ms| - 1]);
      assert front + [ms[|ms| - 1]] == ms;
    }
  }

  /** Every recorded name is the name of some comment containing `Start`, and every such
      comment with a non-empty name is recorded. */
  lemma SectionNamesComeFromStarts(cs: seq<string>, k: string)
    ensures k in Analyze(map[], cs) <==>
      exists j :: 0 <= j < |cs| && IsStartMarker(cs[j]) && NameOf(cs[j]) == k && |k| > 0
  {
    var ms := Markers(cs);
    FoldDescribes(ms);
    if k in Analyze(map[], cs) {
      var j := Fold(map[], ms)[k].start;
      assert ms[j] == StartOf(k);
    }
  }

  /** The entry of a recorded section: its `start` is the last comment opening it, and its `end`,
      when present, the last comment closing it after that start, so `start < end < |cs|`;
      with no such closing comment there is no `end`. */
  lemma AnalyzeEntry(cs: seq<string>, k: string)
    requires k in Analyze(map[], cs)
    ensures var e := Analyze(map[], cs)[k];
      && e.start < |cs| && IsStartMarker(cs[e.start]) && NameOf(cs[e.start]) == k
      && (forall j :: e.start < j < |cs| ==> !(IsStartMarker(cs[j]) && NameOf(cs[j]) == k))
      && (e.end.Some? ==> e.start < e.end.value < |cs| && IsEndMarker(cs[e.end.value]) && NameOf(cs[e.end.value]) == k)
      && (e.end.Some? ==> forall j :: e.end.value < j < |cs| ==> !(IsEndMarker(cs[j]) && NameOf(cs[j]) == k))
      && (e.end.None? ==> forall j :: e.start < j < |cs| ==> !(IsEndMarker(cs[j]) && NameOf(cs[j]) == k))
  {
    var ms := Markers(cs);
    FoldDescribes(ms);
    var e := Fold(map[], ms)[k];
    assert EntryFor(ms, k, e);
    forall j | e.start < j < |cs| ensures !(IsStartMarker(cs[j]) && NameOf(cs[j]) == k) {
      assert ms[j] != StartOf(k);
    }
    if e.end.None? {
      forall j | e.start < j < |cs| ensures !(IsEndMarker(cs[j]) && NameOf(cs[j]) == k) {
        assert ms[j] != EndOf(k);
      }
    } else {
      forall j | e.end.value < j < |cs| ensures !(IsEndMarker(cs[j]) && NameOf(cs[j]) == k) {
        assert ms[j] != EndOf(k);
      }
    }
  }

  /** A start marker with a non-empty name (re)binds its section to a fresh entry with no end,
      whatever was recorded for it before; every other section is left as it was. */
  lemma StartRebinds(m: map<string, Entry>, c: string, i: nat)
    requires IsStartMarker(c) && |NameOf(c)| > 0
    ensures Step(m, Classify(c), i) == m[NameOf(c) := Entry(i, None)]
    ensures forall k :: k in m && k != NameOf(c) ==> Step(m, Classify(c), i)[k] == m[k]
  {
  }

  /** A comment containing both `Start` and `End` counts as a start: it (re)binds its section
      with no end, dropping an end recorded before. */
  lemma StartWinsOverEnd(m: map<string, Entry>, c: string, i: nat)
    requires Contains(Strip(c), "Start") && Contains(Strip(c), "End") && NameOf(c) != ""
    ensures Step(m, Classify(c), i) == m[NameOf(c) := Entry(i, None)]
  {
  }

  /** An end marker for a name not yet started leaves the sections unchanged. */
  lemma EndWithoutStartIgnored(m: map<string, Entry>, c: string, i: nat)
    requires IsEndMarker(c) && NameOf(c) !in m
    ensures Step(m, Classify(c), i) == m
  {
  }

  // ---------------------------------------------------------------- extraction

  /** A sibling: a comment, or anything else as it serializes (`str(node)`). */
  datatype Node = Comment(text: string) | Other(markup: string)

  /** `str(node)`. */
  function Str(n: Node): string {
    match n
    case Comment(t) => t
    case Other(m) => m
  }

  /** Python truthiness of a sibling: an empty string node (text or comment) is false. */
  predicate Truthy(n: Node) {
    |Str(n)| > 0
  }

  predicate IsCommentWith(n: Node, marker: string) {
    n.Comment? && Contains(n.text, marker)
  }

  /** The index of the first comment containing `marker`. */
  function FirstComment(nodes: seq<Node>, marker: string, from: nat): (r: Option<nat>)
    requires from <= |nodes|
    ensures r.Some? ==> from <= r.value < |nodes| && IsCommentWith(nodes[r.value], marker)
    ensures forall i :: from <= i < |nodes| && (r.None? || i < r.value) ==> !IsCommentWith(nodes[i], marker)
    decreases |nodes| - from
  {
    if from == |nodes| then None
    else if IsCommentWith(nodes[from], marker) then Some(from)
    else FirstComment(nodes, marker, from + 1)
  }

  /** The walk stops at a false sibling or at a comment containing the end marker. */
  predicate StopsWalk(n: Node, endMarker: string) {
    !Truthy(n) || IsCommentWith(n, endMarker)
  }

  /** Where the walk that starts at `from` stops: the first stopping sibling, or the end of the list. */
  function StopIndex(nodes: seq<Node>, from: nat, endMarker: string): (k: nat)
    requires from <= |nodes|
    ensures from <= k <= |nodes|
    ensures forall i :: from <= i < k ==> !StopsWalk(nodes[i], endMarker)
    ensures k < |nodes| ==> StopsWalk(nodes[k], endMarker)
    decreases |nodes| - from
  {
    if from == |nodes| || StopsWalk(nodes[from], endMarker) then from
    else StopIndex(nodes, from + 1, endMarker)
  }

  /** The concatenated serialization of the non-comment siblings of `ns`, in order. */
  function Markup(ns: seq<Node>): string
    decreases |ns|
  {
    if |ns| == 0 then ""
    else (if ns[0].Comment? then "" else ns[0].markup) + Markup(ns[1..])
  }

  lemma {:induction false} MarkupConcat(a: seq<Node>, b: seq<Node>)
    ensures Markup(a + b) == Markup(a) + Markup(b)
    decreases |a|
  {
    if |a| == 0 {
      assert a + b == b;
    } else {
      assert (a + b)[0] == a[0];
      assert (a + b)[1..] == a[1..] + b;
      MarkupConcat(a[1..], b);
    }
  }

  /** Walking one sibling further adds its markup, or nothing for a comment. */
  lemma MarkupExtend(ns: seq<Node>, from: nat, k: nat)
    requires from <= k < |ns|
    ensures ns[k].Comment? ==> Markup(ns[from..k + 1]) == Markup(ns[from..k])
    ensures !ns[k].Comment? ==> Markup(ns[from..k + 1]) == Markup(ns[from..k]) + Str(ns[k])
  {
    assert ns[from..k + 1] == ns[from..k] + [ns[k]];
    MarkupConcat(ns[from..k], [ns[k]]);
    assert Markup([ns[k]]) == (if ns[k].Comment? then "" else ns[k].markup) + Markup([]);
  }

  /** Comments contribute nothing: a run of comments has empty markup. */
  lemma {:induction false} MarkupOfComments(ns: seq<Node>)
    requires forall i :: 0 <= i < |ns| ==> ns[i].Comment?
    ensures Markup(ns) == ""
    decreases |ns|
  {
    if |ns| > 0 {
      MarkupOfComments(ns[1..]);
    }
  }

  /** `extract_section(name)`: the markup between the first `<name> Start` comment and the first
      following comment containing `<name> End` (or a false sibling, or the end of the list). */
  function SectionText(nodes: seq<Node>, name: string): string {
    match FirstComment(nodes, name + " Start", 0)
    case None => ""
    case Some(j) => Markup(nodes[j + 1..StopIndex(nodes, j + 1, name + " End")])
  }

  /** Without a comment containing `<name> Start`, the section text is empty. */
  lemma SectionTextNoStart(nodes: seq<Node>, name: string)
    requires forall i :: 0 <= i < |nodes| ==> !IsCommentWith(nodes[i], name + " Start")
    ensures SectionText(nodes, name) == ""
  {
  }

  /** An unterminated section runs to the last sibling: if no sibling after the start stops the
      walk, the text is the markup of everything after the start comment. */
  lemma SectionTextUnterminated(nodes: seq<Node>, name: string, j: nat)
    requires j < |nodes| && IsCommentWith(nodes[j], name + " Start")
    requires forall i :: 0 <= i < j ==> !IsCommentWith(nodes[i], name + " Start")
    requires forall i :: j < i < |nodes| ==> !StopsWalk(nodes[i], name + " End")
    ensures SectionText(nodes, name) == Markup(nodes[j + 1..])
  {
    var startMarker, endMarker := name + " Start", name + " End";
    var first := FirstComment(nodes, startMarker, 0);
    assert first == Some(j);
    var stop := StopIndex(nodes, j + 1, endMarker);
    assert stop == |nodes|;
    assert nodes[j + 1..stop] == nodes[j + 1..];
  }

  /** `<!-- Hero Start -->A<!-- Hero End -->` yields exactly `A`. */
  lemma HeroExample()
    ensures SectionText([Comment("Hero Start"), Other("A"), Comment("Hero End")], "Hero") == "A"
  {
    var nodes := [Comment("Hero Start"), Other("A"), Comment("Hero End")];
    assert "Hero" + " Start" == "Hero Start";
    assert "Hero" + " End" == "Hero End";
    assert StartsWith("Hero Start", "Hero Start");
    assert StartsWith("Hero End", "Hero End");
    assert FirstComment(nodes, "Hero Start", 0) == Some(0);
    assert !StopsWalk(nodes[1], "Hero End");
    assert StopIndex(nodes, 1, "Hero End") == 2;
    assert nodes[1..2] == [Other("A")];
    assert Markup([Other("A")]) == "A" + Markup([]);
  }
}
