/**
 * Rewrites applied to the cell views (`update_cell_views`) and the new name
 * a cell view gets when it moves into the elements folder (`move_cell_views`).
 * Each regular expression is written out as a matcher on the remaining input;
 * `gsub` drives it from left to right.
 */
module CellViews {
  import opened Text

  // ---- rule 1: /elements\.published/ -> 'elements' ----

  function UnpublishElements(s: string): string {
    ReplaceAll(s, "elements.published", "elements")
  }

  /** The first `elements.published` becomes `elements`; the text after it is
      rewritten in turn. */
  lemma UnpublishElementsAt(a: string, b: string)
    requires NoMatchIn(a, "elements.published" + b, "elements.published")
    ensures UnpublishElements(a + "elements.published" + b) == a + "elements" + UnpublishElements(b)
  {
    ReplaceAllFirst(a, "elements.published", "elements", b);
  }

  // ---- rule 2: /cell\.elements(.+)/ -> 'element.nested_elements\1' ----

  const CellElements: string := "cell.elements"

  /** `cell.elements` followed by at least one more character on its line; the
      greedy `.+` takes the rest of the line. */
  function NestedElementsMatch(t: string): (r: Option<Rewrite>)
    ensures r.Some? ==> 0 < r.value.len <= |t|
    ensures r.Some? <==> StartsWith(t, CellElements) && |t| > |CellElements| && t[|CellElements|] != '\n'
  {
    if !StartsWith(t, CellElements) then None
    else
      var n := Run(t[|CellElements|..], NotNewline);
      if n == 0 then None
      else Some(Rewrite(|CellElements| + n, "element.nested_elements" + t[|CellElements|..|CellElements| + n]))
  }

  function NestElements(s: string): string {
    Gsub(s, NestedElementsMatch)
  }

  /** `cell.elements` followed by the rest of its line. */
  lemma NestedElementsMatchLine(rest: string, tail: string)
    requires rest != [] && '\n' !in rest
    requires tail == [] || tail[0] == '\n'
    ensures NestedElementsMatch(CellElements + rest + tail) == Some(Rewrite(|CellElements| + |rest|, "element.nested_elements" + rest))
  {
    var u := CellElements + (rest + tail);
    assert CellElements + rest + tail == u;
    assert StartsWith(u, CellElements);
    assert u[|CellElements|..] == rest + tail;
    assert forall i :: 0 <= i < |rest| ==> NotNewline(rest[i]);
    RunConcat(rest, tail, NotNewline);
    assert (rest + tail)[..|rest|] == rest;
  }

  /** Rule 2 acts on one line: `cell.elements` and the rest of its line
      become `element.nested_elements` followed by that rest, and rewriting
      resumes on the next line. */
  lemma NestElementsLine(a: string, rest: string, tail: string)
    requires rest != [] && '\n' !in rest
    requires tail == [] || tail[0] == '\n'
    requires NoMatchIn(a, CellElements + rest + tail, CellElements)
    ensures NestElements(a + CellElements + rest + tail) == a + ("element.nested_elements" + rest) + NestElements(tail)
  {
    var u := CellElements + rest + tail;
    assert a + CellElements + rest + tail == a + u;
    NestedElementsNoneBefore(a, u);
    NestedElementsMatchLine(rest, tail);
    GsubThroughMatch(a, u, NestedElementsMatch, Rewrite(|CellElements| + |rest|, "element.nested_elements" + rest));
    assert u[|CellElements| + |rest|..] == tail;
  }

  lemma NestedElementsNoneBefore(a: string, u: string)
    requires NoMatchIn(a, u, CellElements)
    ensures forall k :: 0 <= k < |a| ==> NestedElementsMatch((a + u)[k..]).None?
  {
  }

  // ---- rule 3: /render_elements[\(\s]?:?from_cell:?\s?(=>)?\s?cell\)?/ ----

  /** `s` with an optional first character that satisfies `p` taken off. */
  function SkipOptional(s: string, p: char -> bool): (r: string)
    ensures r == s || (s != [] && p(s[0]) && r == s[1..])
  {
    if s != [] && p(s[0]) then s[1..] else s
  }

  /** `s` with an optional leading `lit` taken off. */
  function SkipOptionalLiteral(s: string, lit: string): (r: string)
    ensures r == s || (StartsWith(s, lit) && r == s[|lit|..])
  {
    if StartsWith(s, lit) then s[|lit|..] else s
  }

  predicate IsColon(c: char) {
    c == ':'
  }

  predicate IsCloser(c: char) {
    c == ')'
  }

  /** The calls that rendered a cell's elements. Every optional item is
      taken when it is there: skipping one that is present never lets the
      rest of the pattern match (the items that follow cannot start with
      the skipped character, and of the two `\s?` around `(=>)?` the first
      takes a blank the second would otherwise take), so taking them all is
      the match Ruby's backtracking finds. The pattern is read in two parts;
      each gives the input left after it. */
  function RenderCellElementsMatch(t: string): (r: Option<Rewrite>)
    ensures r.Some? ==> 0 < r.value.len <= |t| && r.value.text == "render element.nested_elements"
    ensures r.Some? ==> StartsWith(t, "render_elements")
  {
    match AfterFromCell(t)
    case None => None
    case Some(u) =>
      match AfterCellArgument(u)
      case None => None
      case Some(w) => Some(Rewrite(|t| - |w|, "render element.nested_elements"))
  }

  /** `render_elements[\(\s]?:?from_cell` */
  function AfterFromCell(t: string): (r: Option<string>)
    ensures r.Some? ==> StartsWith(t, "render_elements") && |r.value| <= |t| - 24
  {
    if !StartsWith(t, "render_elements") then None
    else
      var u := SkipOptional(SkipOptional(t[15..], IsSpaceOrParenthesis), IsColon);
      if StartsWith(u, "from_cell") then Some(u[9..]) else None
  }

  /** `:?\s?(=>)?\s?cell\)?` */
  function AfterCellArgument(u: string): (r: Option<string>)
    ensures r.Some? ==> |r.value| <= |u| - 4
  {
    var v := SkipOptional(SkipOptionalLiteral(SkipOptional(SkipOptional(u, IsColon), IsSpace), "=>"), IsSpace);
    if StartsWith(v, "cell") then Some(SkipOptional(v[4..], IsCloser)) else None
  }

  function RenderNestedElements(s: string): string {
    Gsub(s, RenderCellElementsMatch)
  }

  lemma AfterFromCellWith(opener: string, rest: string)
    requires opener == " " || opener == "(" || opener == " :"
    ensures AfterFromCell("render_elements" + opener + ("from_cell" + rest)) == Some(rest)
  {
    var u := "from_cell" + rest;
    var t := "render_elements" + opener + u;
    assert StartsWith(t, "render_elements") && t[15..] == opener + u;
    assert SkipOptional(SkipOptional(opener + u, IsSpaceOrParenthesis), IsColon) == u by {
      if opener == " :" {
        assert (opener + u)[1..] == ":" + u;
      } else {
        assert (opener + u)[1..] == u;
      }
    }
    assert u[..9] == "from_cell" && u[9..] == rest;
  }

  lemma AfterCellArgumentColon(c: string)
    ensures AfterCellArgument(": " + ("cell" + c)) == Some(SkipOptional(c, IsCloser))
  {
    var v := "cell" + c;
    assert v[0] == 'c' && v[..4] == "cell" && v[4..] == c;
    assert SkipOptional(SkipOptional(": " + v, IsColon), IsSpace) == v by {
      assert (": " + v)[1..] == " " + v;
      assert (" " + v)[1..] == v;
    }
  }

  lemma AfterCellArgumentRocket(c: string)
    ensures AfterCellArgument(" => " + ("cell" + c)) == Some(SkipOptional(c, IsCloser))
  {
    var v := "cell" + c;
    assert v[0] == 'c' && v[..4] == "cell" && v[4..] == c;
    assert SkipOptional(SkipOptionalLiteral(SkipOptional(" => " + v, IsSpace), "=>"), IsSpace) == v by {
      assert (" => " + v)[1..] == "=>" + (" " + v);
      assert ("=>" + (" " + v))[2..] == " " + v;
      assert (" " + v)[1..] == v;
    }
  }

  lemma KeywordFormText(b: string)
    ensures "render_elements from_cell: cell" + b == "render_elements" + " " + ("from_cell" + (": " + ("cell" + b)))
  {
  }

  lemma ParenthesisedFormText(b: string)
    ensures "render_elements(from_cell: cell)" + b == "render_elements" + "(" + ("from_cell" + (": " + ("cell" + (")" + b))))
  {
  }

  lemma RocketFormText(b: string)
    ensures "render_elements :from_cell => cell" + b == "render_elements" + " :" + ("from_cell" + (" => " + ("cell" + b)))
  {
  }

  /** The keyword form `render_elements from_cell: cell`. */
  lemma RenderKeywordForm(b: string)
    requires b == [] || b[0] != ')'
    ensures RenderCellElementsMatch("render_elements from_cell: cell" + b) == Some(Rewrite(31, "render element.nested_elements"))
  {
    KeywordFormText(b);
    AfterFromCellWith(" ", ": " + ("cell" + b));
    AfterCellArgumentColon(b);
    assert SkipOptional(b, IsCloser) == b;
  }

  /** The parenthesised form `render_elements(from_cell: cell)`, closing
      parenthesis included. */
  lemma RenderParenthesisedForm(b: string)
    requires b == [] || b[0] != ')'
    ensures RenderCellElementsMatch("render_elements(from_cell: cell)" + b) == Some(Rewrite(32, "render element.nested_elements"))
  {
    ParenthesisedFormText(b);
    AfterFromCellWith("(", ": " + ("cell" + (")" + b)));
    AfterCellArgumentColon(")" + b);
    assert SkipOptional(")" + b, IsCloser) == b;
  }

  /** The hash-rocket form `render_elements :from_cell => cell`. */
  lemma RenderRocketForm(b: string)
    requires b == [] || b[0] != ')'
    ensures RenderCellElementsMatch("render_elements :from_cell => cell" + b) == Some(Rewrite(34, "render element.nested_elements"))
  {
    RocketFormText(b);
    AfterFromCellWith(" :", " => " + ("cell" + b));
    AfterCellArgumentRocket(b);
    assert SkipOptional(b, IsCloser) == b;
  }

  // ---- rule 4: /cell/ -> 'element' ----

  function CellToElement(s: string): string {
    ReplaceAll(s, "cell", "element")
  }

  /** `update_cell_views`: the four substitutions, each applied to the
      output of the one before. */
  function RewriteCellView(s: string): string {
    CellToElement(RenderNestedElements(NestElements(UnpublishElements(s))))
  }

  lemma CellToElementUnfold(s: string)
    ensures s == [] ==> CellToElement(s) == []
    ensures s != [] && StartsWith(s, "cell") ==> CellToElement(s) == "element" + CellToElement(s[4..])
    ensures s != [] && !StartsWith(s, "cell") ==> CellToElement(s) == [s[0]] + CellToElement(s[1..])
  {
  }

  /** The first character rule 4 writes for a non-empty input. */
  lemma CellToElementFirst(s: string)
    requires s != []
    ensures CellToElement(s) != []
    ensures CellToElement(s)[0] == if StartsWith(s, "cell") then 'e' else s[0]
  {
    CellToElementUnfold(s);
  }

  /** Output beginning `ll` comes from input beginning `ll`. */
  lemma CellToElementBackLL(s: string)
    requires |CellToElement(s)| >= 2 && CellToElement(s)[0] == 'l' && CellToElement(s)[1] == 'l'
    ensures |s| >= 2 && s[0] == 'l' && s[1] == 'l'
  {
    CellToElementUnfold(s);
    CellToElementFirst(s);
    assert !StartsWith(s, "cell");
    var s1 := s[1..];
    assert CellToElement(s) == [s[0]] + CellToElement(s1);
    assert CellToElement(s1) != [] && CellToElement(s1)[0] == 'l';
    assert s1 != [];
    CellToElementFirst(s1);
  }

  /** Output beginning `ell` comes from input beginning `ell`. */
  lemma CellToElementBackELL(s: string)
    requires |CellToElement(s)| >= 3
    requires CellToElement(s)[0] == 'e' && CellToElement(s)[1] == 'l' && CellToElement(s)[2] == 'l'
    ensures |s| >= 3 && s[0] == 'e' && s[1] == 'l' && s[2] == 'l'
  {
    CellToElementUnfold(s);
    var s1 := s[1..];
    assert CellToElement(s) == [s[0]] + CellToElement(s1);
    assert CellToElement(s1)[0] == 'l' && CellToElement(s1)[1] == 'l';
    CellToElementBackLL(s1);
  }

  lemma SpellsCell(s: string)
    requires |s| >= 4 && s[0] == 'c' && s[1] == 'e' && s[2] == 'l' && s[3] == 'l'
    ensures StartsWith(s, "cell")
  {
    assert s[..4] == "cell";
  }

  /** A `cell` at the front of rule 4's output after a copied character was
      already a `cell` in the input. */
  lemma CellAtFrontBack(s: string)
    requires s != []
    ensures StartsWith([s[0]] + CellToElement(s[1..]), "cell") ==> StartsWith(s, "cell")
  {
    var g := CellToElement(s[1..]);
    if StartsWith([s[0]] + g, "cell") {
      assert s[0] == 'c' && |g| >= 3 && g[0] == 'e' && g[1] == 'l' && g[2] == 'l' by {
        var out := [s[0]] + g;
        assert out[..4] == "cell";
        assert out[0] == 'c' && out[1] == 'e' && out[2] == 'l' && out[3] == 'l';
      }
      CellToElementBackELL(s[1..]);
      assert s[1] == s[1..][0] && s[2] == s[1..][1] && s[3] == s[1..][2];
      SpellsCell(s);
    }
  }

  /** After rule 4 no `cell` is left anywhere in the content. */
  lemma {:induction false} NoCellRemains(s: string)
    ensures !Contains(CellToElement(s), "cell")
    decreases |s|
  {
    CellToElementUnfold(s);
    if s != [] {
      var out := CellToElement(s);
      if StartsWith(s, "cell") {
        var rest := CellToElement(s[4..]);
        NoCellRemains(s[4..]);
        forall k | 0 <= k <= |out| ensures !StartsWith(out[k..], "cell") {
          if k < 7 {
            assert out[k] == "element"[k];
          } else {
            assert out[k..] == rest[k - 7..];
          }
        }
      } else {
        var rest := CellToElement(s[1..]);
        NoCellRemains(s[1..]);
        CellAtFrontBack(s);
        forall k | 0 <= k <= |out| ensures !StartsWith(out[k..], "cell") {
          if k == 0 {
            assert out[0..] == out;
          } else {
            assert out[k..] == rest[k - 1..];
          }
        }
      }
    }
  }

  /** No `cell` survives the whole rewrite of a cell view. */
  lemma RewriteCellViewLeavesNoCell(s: string)
    ensures !Contains(RewriteCellView(s), "cell")
  {
    NoCellRemains(RenderNestedElements(NestElements(UnpublishElements(s))));
  }

  // ---- the new name of a moved view: /(_\w+)\.(\w*\.)?(erb|haml|slim)/ -> '\1_view.\2\3' ----

  predicate IsTemplateExtension(x: string) {
    x == "erb" || x == "haml" || x == "slim"
  }

  /** Length of the template extension `t` starts with, 0 for none; the three
      alternatives start with different letters, so at most one applies. */
  function ExtensionLength(t: string): (n: nat)
    ensures n <= |t|
    ensures n > 0 <==> StartsWith(t, "erb") || StartsWith(t, "haml") || StartsWith(t, "slim")
    ensures n > 0 ==> IsTemplateExtension(t[..n])
  {
    if StartsWith(t, "erb") then 3
    else if StartsWith(t, "haml") || StartsWith(t, "slim") then 4
    else 0
  }

  /** What a match takes after its first dot: the optional `\w*\.` segment
      (used when a template extension follows it, dropped otherwise, the
      order in which backtracking tries the two; `\w*` can only be followed
      by `.` once it has taken every word character) and the extension. */
  function TemplateSuffix(r: string): (o: Option<nat>)
    ensures o.Some? ==> 0 < o.value <= |r|
  {
    var n := Run(r, IsWordChar);
    if n < |r| && r[n] == '.' && ExtensionLength(r[n + 1..]) > 0 then Some(n + 1 + ExtensionLength(r[n + 1..]))
    else if ExtensionLength(r) > 0 then Some(ExtensionLength(r))
    else None
  }

  /** One match of the view-name pattern at the start of `t`. The `\w+` of
      the first group can only be followed by `.` once it has taken every word
      character. Groups 2 and 3 together are the text after the first dot, so
      the replacement inserts `_view` in front of that dot. */
  function ViewNameMatch(t: string): (r: Option<Rewrite>)
    ensures r.Some? ==> 0 < r.value.len <= |t|
    ensures r.Some? ==> |r.value.text| == r.value.len + 5
    ensures r.Some? ==> StartsWith(t, "_")
  {
    if t == [] || t[0] != '_' then None
    else
      var n1 := Run(t[1..], IsWordChar);
      var dot := 1 + n1;
      if n1 == 0 || dot == |t| || t[dot] != '.' then None
      else match TemplateSuffix(t[dot + 1..])
        case None => None
        case Some(n) => Some(Rewrite(dot + 1 + n, t[..dot] + "_view." + t[dot + 1..dot + 1 + n]))
  }

  function MovedViewName(name: string): string {
    Gsub(name, ViewNameMatch)
  }

  lemma ViewNameMatchGrows()
    ensures Advances(ViewNameMatch) && Grows(ViewNameMatch)
  {
  }

  /** The name is kept exactly when the pattern matches nowhere in it. */
  lemma MovedViewNameUnchangedIff(name: string)
    ensures MovedViewName(name) == name <==> forall k :: 0 <= k < |name| ==> ViewNameMatch(name[k..]).None?
  {
    if forall k :: 0 <= k < |name| ==> ViewNameMatch(name[k..]).None? {
      GsubUnchanged(name, ViewNameMatch);
    } else {
      var k :| 0 <= k < |name| && ViewNameMatch(name[k..]).Some?;
      ViewNameMatchGrows();
      GsubGrowsAtMatch(name, ViewNameMatch, k);
    }
  }

  /** A name without an underscore is kept. */
  lemma MovedViewNameWithoutUnderscore(name: string)
    requires '_' !in name
    ensures MovedViewName(name) == name
  {
    forall k | 0 <= k < |name| ensures ViewNameMatch(name[k..]).None? {
      assert name[k..][0] == name[k];
    }
    GsubUnchanged(name, ViewNameMatch);
  }

  lemma ExtensionLengthOf(x: string)
    requires IsTemplateExtension(x)
    ensures ExtensionLength(x) == |x|
  {
    assert x[..|x|] == x;
    if x != "erb" {
      assert x[0] != 'e';
    }
  }

  lemma TemplateSuffixPlain(x: string)
    requires IsTemplateExtension(x)
    ensures TemplateSuffix(x) == Some(|x|)
  {
    assert AllWord(x);
    RunConcat(x, [], IsWordChar);
    assert x + [] == x;
    ExtensionLengthOf(x);
  }

  lemma TemplateSuffixFormat(f: string, x: string)
    requires AllWord(f) && IsTemplateExtension(x)
    ensures TemplateSuffix(f + "." + x) == Some(|f| + 1 + |x|)
  {
    var r := f + ("." + x);
    assert f + "." + x == r;
    RunConcat(f, "." + x, IsWordChar);
    assert r[|f|] == '.' && r[|f| + 1..] == x;
    ExtensionLengthOf(x);
  }

  /** The match, once the first word run and the part after the dot are known. */
  lemma ViewNameMatchSteps(t: string, n1: nat, n: nat)
    requires t != [] && t[0] == '_' && n1 > 0 && Run(t[1..], IsWordChar) == n1
    requires n1 + 1 < |t| && t[n1 + 1] == '.' && TemplateSuffix(t[n1 + 2..]) == Some(n)
    ensures ViewNameMatch(t) == Some(Rewrite(n1 + 2 + n, t[..n1 + 1] + "_view." + t[n1 + 2..n1 + 2 + n]))
  {
  }

  lemma WholeNameParts(w: string, r: string)
    requires AllWord(w)
    ensures var t := "_" + w + "."  + r;
      && t[0] == '_' && t[|w| + 1] == '.' && t[1..] == w + ("." + r)
      && t[..|w| + 1] == "_" + w && t[|w| + 2..] == r && t[|w| + 2..|w| + 2 + |r|] == r
  {
  }

  /** A match at `_w.` that takes all of `r`: the word run stops at the dot. */
  lemma ViewNameMatchWhole(w: string, r: string)
    requires w != [] && AllWord(w) && TemplateSuffix(r) == Some(|r|)
    ensures ViewNameMatch("_" + w + "." + r) == Some(Rewrite(|w| + 2 + |r|, "_" + w + "_view." + r))
  {
    var t := "_" + w + "." + r;
    WholeNameParts(w, r);
    RunConcat(w, "." + r, IsWordChar);
    ViewNameMatchSteps(t, |w|, |r|);
  }

  /** Gsub over `p + u` when the match at `u` takes all of it and `p` holds no underscore. */
  lemma MovedViewNameWhole(p: string, u: string, len: nat, text: string)
    requires '_' !in p && ViewNameMatch(u) == Some(Rewrite(len, text)) && len == |u|
    ensures MovedViewName(p + u) == p + text
  {
    forall k | 0 <= k < |p| ensures ViewNameMatch((p + u)[k..]).None? {
      assert (p + u)[k..][0] == p[k];
      ViewNameMatchNeedsUnderscore((p + u)[k..]);
    }
    GsubThroughMatch(p, u, ViewNameMatch, Rewrite(len, text));
    assert u[|u|..] == [];
  }

  lemma ViewNameMatchNeedsUnderscore(t: string)
    requires t != [] && t[0] != '_'
    ensures ViewNameMatch(t).None?
  {
  }

  // ---- which names the pattern matches, stated without the matcher ----

  /** `f` is what the optional group `(\w*\.)?` can take: nothing, or word
      characters closed by a dot. */
  predicate IsFormatSegment(f: string) {
    f == [] || (AllWord(f[..|f| - 1]) && f[|f| - 1] == '.')
  }

  /** `t` starts with `_w.fx`, a text the view-name pattern accepts with `w` as
      the `\w+` of the first group, `f` as the optional group and `x` as the
      extension. */
  predicate ViewNameShape(t: string, w: string, f: string, x: string) {
    && w != [] && AllWord(w) && IsFormatSegment(f) && IsTemplateExtension(x)
    && StartsWith(t, "_" + w + "." + f + x)
  }

  lemma ExtensionLengthStarts(s: string, x: string)
    requires IsTemplateExtension(x) && StartsWith(s, x)
    ensures ExtensionLength(s) == |x|
  {
    assert s[0] == x[0];
    if x == "haml" || x == "slim" {
      assert !StartsWith(s, "erb") by {
        assert s[..3][0] == s[0];
      }
    }
  }

  /** The match at `_w.r`, once the template suffix of `r` is known. */
  lemma ViewNameMatchAt(w: string, r: string, n: nat)
    requires w != [] && AllWord(w) && TemplateSuffix(r) == Some(n)
    ensures ViewNameMatch("_" + w + "." + r) == Some(Rewrite(|w| + 2 + n, "_" + w + "_view." + r[..n]))
  {
    var t := "_" + w + "." + r;
    WholeNameParts(w, r);
    RunConcat(w, "." + r, IsWordChar);
    ViewNameMatchSteps(t, |w|, n);
    assert t[|w| + 2..|w| + 2 + n] == r[..n];
  }

  /** A text the matcher succeeds on is `_w.r` with a word `w` and a
      template suffix at the start of `r`. */
  lemma ViewNameMatchParts(t: string) returns (w: string, r: string)
    requires ViewNameMatch(t).Some?
    ensures w != [] && AllWord(w) && TemplateSuffix(r).Some? && t == "_" + w + "." + r
  {
    var dot := 1 + Run(t[1..], IsWordChar);
    w, r := t[1..dot], t[dot + 1..];
    forall i | 0 <= i < |w| ensures IsWordChar(w[i]) {
      RunAll(t[1..], IsWordChar, i);
    }
    assert t == [t[0]] + t[1..dot] + [t[dot]] + t[dot + 1..];
  }

  /** What the template suffix takes is an optional segment and an extension. */
  lemma TemplateSuffixParts(r: string) returns (f: string, x: string)
    requires TemplateSuffix(r).Some?
    ensures IsFormatSegment(f) && IsTemplateExtension(x) && r[..TemplateSuffix(r).value] == f + x
  {
    var n := TemplateSuffix(r).value;
    var m := Run(r, IsWordChar);
    if m < |r| && r[m] == '.' && ExtensionLength(r[m + 1..]) > 0 {
      f, x := r[..m + 1], r[m + 1..n];
      assert f[..|f| - 1] == r[..m];
      forall i | 0 <= i < m ensures IsWordChar(r[..m][i]) {
        RunAll(r, IsWordChar, i);
      }
    } else {
      f, x := [], r[..n];
    }
  }

  /** An optional segment and an extension at the start of `r` are taken by the
      template suffix; a non-empty segment is taken whole. */
  lemma TemplateSuffixOfParts(f: string, x: string, rest: string)
    requires IsFormatSegment(f) && IsTemplateExtension(x)
    ensures TemplateSuffix(f + x + rest).Some?
    ensures f != [] ==> TemplateSuffix(f + x + rest) == Some(|f| + |x|)
  {
    var r := f + x + rest;
    if f == [] {
      assert r == x + rest;
      ExtensionLengthStarts(r, x);
    } else {
      var g := f[..|f| - 1];
      assert r == g + ("." + (x + rest));
      RunConcat(g, "." + (x + rest), IsWordChar);
      assert r[|g| + 1..] == x + rest;
      ExtensionLengthStarts(x + rest, x);
    }
  }

  lemma ShapeConcat(w: string, f: string, x: string, rest: string)
    ensures "_" + w + "." + (f + x + rest) == ("_" + w + "." + f + x) + rest
    ensures (f + x + rest)[..|f| + |x|] == f + x
    ensures "_" + w + "_view." + (f + x) == "_" + w + "_view." + f + x
    ensures |"_" + w + "." + f + x| == |w| + 2 + |f| + |x|
  {
  }

  /** Every match the matcher finds is an accepted text, and its replacement
      puts `_view` between the word and the first dot. */
  lemma ViewNameMatchFound(t: string)
    requires ViewNameMatch(t).Some?
    ensures exists w, f, x :: (ViewNameShape(t, w, f, x)
      && ViewNameMatch(t).value == Rewrite(|w| + 2 + |f| + |x|, "_" + w + "_view." + f + x))
  {
    var w, r := ViewNameMatchParts(t);
    var f, x := TemplateSuffixParts(r);
    var n := TemplateSuffix(r).value;
    var rest := r[n..];
    assert r == f + x + rest;
    ViewNameMatchAt(w, r, n);
    ShapeConcat(w, f, x, rest);
    SplitAt("_" + w + "." + f + x, rest);
    assert ViewNameShape(t, w, f, x);
  }

  /** Every accepted text is matched; when the optional group can take a
      segment, the match takes it, as backtracking tries the group first. */
  lemma ViewNameMatchOfShape(t: string, w: string, f: string, x: string)
    requires ViewNameShape(t, w, f, x)
    ensures ViewNameMatch(t).Some?
    ensures f != [] ==> ViewNameMatch(t) == Some(Rewrite(|w| + 2 + |f| + |x|, "_" + w + "_view." + f + x))
  {
    var rest := ShapeRest(t, "_" + w + "." + f + x);
    ShapeConcat(w, f, x, rest);
    var r := f + x + rest;
    TemplateSuffixOfParts(f, x, rest);
    ViewNameMatchAt(w, r, TemplateSuffix(r).value);
  }

  lemma ShapeRest(t: string, u: string) returns (rest: string)
    requires StartsWith(t, u)
    ensures t == u + rest
  {
    rest := t[|u|..];
    assert t == t[..|u|] + rest;
  }

  /** The matcher succeeds exactly on the texts the pattern accepts. */
  lemma ViewNameMatchIff(t: string)
    ensures ViewNameMatch(t).Some? <==> exists w, f, x :: ViewNameShape(t, w, f, x)
  {
    if ViewNameMatch(t).Some? {
      ViewNameMatchFound(t);
    }
    if exists w, f, x :: ViewNameShape(t, w, f, x) {
      var w, f, x :| ViewNameShape(t, w, f, x);
      ViewNameMatchOfShape(t, w, f, x);
    }
  }

  /** A name is kept exactly when no position of it starts an accepted text. */
  lemma MovedViewNameUnchangedShape(name: string)
    ensures MovedViewName(name) == name
      <==> forall k, w, f, x :: 0 <= k < |name| ==> !ViewNameShape(name[k..], w, f, x)
  {
    MovedViewNameUnchangedIff(name);
    forall k | 0 <= k < |name|
      ensures ViewNameMatch(name[k..]).Some? <==> exists w, f, x :: ViewNameShape(name[k..], w, f, x)
    {
      ViewNameMatchIff(name[k..]);
    }
  }

  /** `p_w.r` becomes `p_w_view.r` when the template suffix takes all of `r`. */
  lemma MovedViewNameOf(p: string, w: string, r: string)
    requires '_' !in p && w != [] && AllWord(w) && TemplateSuffix(r) == Some(|r|)
    ensures MovedViewName(p + ("_" + w + "." + r)) == p + ("_" + w + "_view." + r)
  {
    ViewNameMatchWhole(w, r);
    MovedViewNameWhole(p, "_" + w + "." + r, |w| + 2 + |r|, "_" + w + "_view." + r);
  }

  lemma PlainNameParts(p: string, w: string, x: string)
    ensures p + "_" + w + "." + x == p + ("_" + w + "." + x)
    ensures p + "_" + w + "_view." + x == p + ("_" + w + "_view." + x)
  {
  }

  lemma FormatNameParts(p: string, w: string, f: string, x: string)
    ensures p + "_" + w + "." + f + "." + x == p + ("_" + w + "." + (f + "." + x))
    ensures p + "_" + w + "_view." + f + "." + x == p + ("_" + w + "_view." + (f + "." + x))
  {
  }

  /** A cell partial `p_w.ext` (no underscore in `p`) becomes `p_w_view.ext`. */
  lemma MovedViewNamePlain(p: string, w: string, x: string)
    requires '_' !in p && w != [] && AllWord(w) && IsTemplateExtension(x)
    ensures MovedViewName(p + "_" + w + "." + x) == p + "_" + w + "_view." + x
  {
    TemplateSuffixPlain(x);
    MovedViewNameOf(p, w, x);
    PlainNameParts(p, w, x);
  }

  /** `p_w.fmt.ext` becomes `p_w_view.fmt.ext`. */
  lemma MovedViewNameFormat(p: string, w: string, f: string, x: string)
    requires '_' !in p && w != [] && AllWord(w) && AllWord(f) && IsTemplateExtension(x)
    ensures MovedViewName(p + "_" + w + "." + f + "." + x) == p + "_" + w + "_view." + f + "." + x
  {
    TemplateSuffixFormat(f, x);
    MovedViewNameOf(p, w, f + "." + x);
    FormatNameParts(p, w, f, x);
  }

  lemma ExampleNameParts()
    ensures "foo_bar.html.erb" == "foo" + "_" + "bar" + "." + "html" + "." + "erb"
    ensures "foo_bar_view.html.erb" == "foo" + "_" + "bar" + "_view." + "html" + "." + "erb"
    ensures '_' !in "foo" && AllWord("bar") && AllWord("html")
  {
  }

  /** `foo_bar.html.erb` becomes `foo_bar_view.html.erb`. */
  lemma MovedViewNameExample()
    ensures MovedViewName("foo_bar.html.erb") == "foo_bar_view.html.erb"
  {
    ExampleNameParts();
    MovedViewNameFormat("foo", "bar", "html", "erb");
  }
}
