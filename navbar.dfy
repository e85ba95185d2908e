/**
 * Navbar link rewriting: every `href="X.html"` becomes a Django `{% url 'X' %}`
 * reference, and the original `X.html` is remembered as a menu item.
 */
module Navbar {
  import opened Strings

  /** The navbar content as the pattern `href="([^"]+\.html)"` splits it: the text between
      matches, and each match by its captured value. The pattern only captures values that end in
      `.html` and contain no `"`, so every captured value is a page link (`CapturedIsPageLink`) and
      the echo branch of `ReplaceHref`, like the `return match.group(0)` it models, is never taken
      for one. */
  datatype Piece = Text(text: string) | Href(value: string)

  /** The replacement for a link to page `name`. */
  function UrlTag(name: string): string {
    "href=\"{% url '" + name + "' %}\""
  }

  /** A captured value is rewritten when, once stripped, it ends with `.html`. */
  predicate IsPageLink(value: string) {
    EndsWith(Strip(value), ".html")
  }

  /** `replace_href`: the text that replaces one match. */
  function ReplaceHref(value: string): (r: string)
    ensures IsPageLink(value) ==> exists name :: name + ".html" == Strip(value) && r == UrlTag(name)
    ensures !IsPageLink(value) ==> r == "href=\"" + value + "\""
  {
    var href := Strip(value);
    if EndsWith(href, ".html") then
      var name := BeforeLast(href, '.');
      BeforeLastHtml(href);
      assert href == href[..|href| - 5] + href[|href| - 5..];
      UrlTag(name)
    else
      "href=\"" + value + "\""
  }

  /** A value the pattern captures ends in `.html`, and stripping it keeps that ending. */
  lemma CapturedIsPageLink(value: string)
    requires EndsWith(value, ".html")
    ensures IsPageLink(value)
  {
    var n := |value| - 5;
    assert value[n..] == ".html";
    TrimLeftSpec(value);
    var t := TrimLeft(value);
    assert value[n] == '.' && !IsSpace(value[n]);
    assert |t| >= 5;
    assert t[|t| - 5..] == value[n..];
    assert t[|t| - 1] == 'l';
    assert TrimRight(t) == t;
  }

  /** For a link ending in `.html`, the part before the last `.` is the link without that suffix. */
  lemma BeforeLastHtml(href: string)
    requires EndsWith(href, ".html")
    ensures BeforeLast(href, '.') == href[..|href| - 5]
  {
    var n := |href| - 5;
    assert href[n + 1..] == href[n..][1..] == "html";
    BeforeLastAt(href, '.', n);
  }

  function RenderPiece(p: Piece): string {
    match p
    case Text(t) => t
    case Href(v) => ReplaceHref(v)
  }

  /** The rewritten content. */
  function Render(ps: seq<Piece>): string
    decreases |ps|
  {
    if |ps| == 0 then "" else Render(ps[..|ps| - 1]) + RenderPiece(ps[|ps| - 1])
  }

  /** The content before rewriting: each match is `href="<value>"`. */
  function Original(ps: seq<Piece>): string
    decreases |ps|
  {
    if |ps| == 0 then ""
    else Original(ps[..|ps| - 1]) + (match ps[|ps| - 1] case Text(t) => t case Href(v) => "href=\"" + v + "\"")
  }

  /** Piece `p` is a page link whose stripped value is `h`. */
  predicate LinksTo(p: Piece, h: string) {
    p.Href? && IsPageLink(p.value) && Strip(p.value) == h
  }

  /** The link one piece adds to `menu_items`: its stripped value when it is a page link. */
  function ItemsOf(p: Piece): set<string> {
    if p.Href? && IsPageLink(p.value) then {Strip(p.value)} else {}
  }

  /** The links added to `menu_items`: the stripped value of every page link. */
  function Linked(ps: seq<Piece>): set<string>
    decreases |ps|
  {
    if |ps| == 0 then {} else Linked(ps[..|ps| - 1]) + ItemsOf(ps[|ps| - 1])
  }

  /** `menu_items` gains exactly the stripped values of the page links. */
  lemma {:induction false} LinkedIff(ps: seq<Piece>, h: string)
    ensures h in Linked(ps) <==> exists i :: 0 <= i < |ps| && LinksTo(ps[i], h)
    decreases |ps|
  {
    if |ps| > 0 {
      var front := ps[..|ps| - 1];
      LinkedIff(front, h);
      assert forall i :: 0 <= i < |front| ==> front[i] == ps[i];
      if LinksTo(ps[|ps| - 1], h) {
        assert h in Linked(ps);
      }
    }
  }

  /** Rewriting one more piece appends its replacement and, for a page link, its menu item. */
  lemma RenderSnoc(ps: seq<Piece>, i: nat)
    requires i < |ps|
    ensures Render(ps[..i + 1]) == Render(ps[..i]) + RenderPiece(ps[i])
    ensures Linked(ps[..i + 1]) == Linked(ps[..i]) + ItemsOf(ps[i])
  {
    assert ps[..i + 1][..i] == ps[..i];
  }

  /** Every menu item is a link ending with `.html`. */
  lemma LinkedArePages(ps: seq<Piece>)
    ensures forall h :: h in Linked(ps) ==> EndsWith(h, ".html")
  {
  }

  /** Content without page links comes out exactly as it went in. */
  lemma {:induction false} RenderUnchanged(ps: seq<Piece>)
    requires forall i :: 0 <= i < |ps| && ps[i].Href? ==> !IsPageLink(ps[i].value)
    ensures Render(ps) == Original(ps)
    ensures Linked(ps) == {}
    decreases |ps|
  {
    if |ps| > 0 {
      RenderUnchanged(ps[..|ps| - 1]);
    }
  }

  lemma AboutIsPage()
    ensures Strip("about.html") == "about.html"
    ensures ReplaceHref("about.html") == UrlTag("about")
  {
    assert EndsWith("about.html", ".html");
    BeforeLastHtml("about.html");
    assert "about.html"[..5] == "about";
  }

  /** A link to `about.html` inside an anchor becomes a `{% url 'about' %}` reference. */
  lemma AboutExample()
    ensures Render([Text("<a "), Href("about.html"), Text(">")]) == "<a " + UrlTag("about") + ">"
  {
    var ps := [Text("<a "), Href("about.html"), Text(">")];
    AboutIsPage();
    assert ps[..2][..1] == [Text("<a ")];
    assert ps[..2] == [Text("<a "), Href("about.html")];
    assert ps[..2][..1][..0] == [];
    assert Render(ps[..1]) == "<a ";
    assert Render(ps[..2]) == "<a " + UrlTag("about");
  }

  /** ... and `about.html` becomes a menu item. */
  lemma AboutMenuItem()
    ensures Linked([Text("<a "), Href("about.html"), Text(">")]) == {"about.html"}
  {
    var ps := [Text("<a "), Href("about.html"), Text(">")];
    AboutIsPage();
    assert ps[..2][..1] == [Text("<a ")];
    assert ps[..2] == [Text("<a "), Href("about.html")];
    assert ps[..2][..1][..0] == [];
    assert Linked(ps[..1]) == {};
    assert Linked(ps[..2]) == {"about.html"};
  }
}
