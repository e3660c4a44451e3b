/**
 * Call-site rewrite of the cells upgrader (`update_render_cell_calls`):
 * `render_cell` calls and `render_elements ... from_cell: x` calls become
 * `render_elements ... only: x, fixed: true`. The names are mapped through
 * the cell-name migrator, an opaque function here.
 */
module RenderCalls {
  import opened Text

  /** `['":]`, what opens the cell name. */
  predicate IsNameOpener(c: char) {
    c == '\'' || c == '"' || c == ':'
  }

  predicate IsQuote(c: char) {
    c == '\'' || c == '"'
  }

  /** `[:\s=>]`, what may stand between `from_cell` and the cell name. */
  predicate IsSeparator(c: char) {
    c == ':' || IsSpace(c) || c == '=' || c == '>'
  }

  // ---- /render_cell([\s(]+)(['":])(\w+)([^\w])(.*?)/ ----

  /** One match of the `render_cell` pattern at the start of `t`. `[\s(]+`
      and `\w+` are followed by characters they cannot take (`['":]` and
      `[^\w]`), so both runs are maximal; the lazy `(.*?)` at the end
      matches the empty string. */
  function RenderCellAt(t: string, migrate: string -> string): (r: Option<Rewrite>)
    ensures r.Some? ==> 0 < r.value.len <= |t|
    ensures r.Some? ==> StartsWith(t, "render_cell")
  {
    if !StartsWith(t, "render_cell") then None
    else
      var a := t[11..];
      var n1 := Run(a, IsSpaceOrParenthesis);
      var b := a[n1..];
      if n1 == 0 || b == [] || !IsNameOpener(b[0]) then None
      else
        var n3 := Run(b[1..], IsWordChar);
        if n3 == 0 || n3 + 1 == |b| then None
        else Some(Rewrite(11 + n1 + n3 + 2,
          "render_elements" + a[..n1] + "only: " + [b[0]] + migrate(b[1..n3 + 1]) + [b[n3 + 1]] + ", fixed: true"))
  }

  function RenderCellMatcher(migrate: string -> string): (m: Matcher)
    ensures Advances(m)
    ensures forall t :: m(t) == RenderCellAt(t, migrate)
  {
    t => RenderCellAt(t, migrate)
  }

  /** The first `gsub!` of the call-site rewrite. */
  function RenderCells(s: string, migrate: string -> string): string {
    Gsub(s, RenderCellMatcher(migrate))
  }

  lemma RenderCellParts(opener: string, q: char, name: string, c: char, rest: string)
    ensures var t := "render_cell" + opener + [q] + name + [c] + rest;
      && StartsWith(t, "render_cell") && t[11..] == opener + ([q] + (name + ([c] + rest)))
      && (opener + ([q] + (name + ([c] + rest))))[..|opener|] == opener
      && (opener + ([q] + (name + ([c] + rest))))[|opener|..] == [q] + (name + ([c] + rest))
      && ([q] + (name + ([c] + rest)))[1..] == name + ([c] + rest)
      && (name + ([c] + rest))[..|name|] == name
      && ([q] + (name + ([c] + rest)))[1..|name| + 1] == name
      && ([q] + (name + ([c] + rest)))[|name| + 1] == c
  {
  }

  /** The match, once the runs of the pattern are known. */
  lemma RenderCellAtOf(t: string, opener: string, b: string, name: string, migrate: string -> string)
    requires StartsWith(t, "render_cell") && Run(t[11..], IsSpaceOrParenthesis) == |opener|
    requires t[11..][..|opener|] == opener && t[11..][|opener|..] == b
    requires opener != [] && b != [] && IsNameOpener(b[0])
    requires Run(b[1..], IsWordChar) == |name| && name != [] && |name| + 1 < |b| && b[1..|name| + 1] == name
    ensures RenderCellAt(t, migrate) ==
      Some(Rewrite(|opener| + |name| + 13, "render_elements" + opener + "only: " + [b[0]] + migrate(name) + [b[|name| + 1]] + ", fixed: true"))
  {
  }

  /** A `render_cell` call: a run of blanks or `(`, the opening quote or colon,
      the cell name and the character after it. */
  lemma RenderCellAtCall(opener: string, q: char, name: string, c: char, rest: string, migrate: string -> string)
    requires opener != [] && forall i :: 0 <= i < |opener| ==> IsSpaceOrParenthesis(opener[i])
    requires IsNameOpener(q) && name != [] && AllWord(name) && !IsWordChar(c)
    ensures RenderCellAt("render_cell" + opener + [q] + name + [c] + rest, migrate) ==
      Some(Rewrite(|opener| + |name| + 13, "render_elements" + opener + "only: " + [q] + migrate(name) + [c] + ", fixed: true"))
  {
    var b := [q] + (name + ([c] + rest));
    RenderCellParts(opener, q, name, c, rest);
    RunConcat(opener, b, IsSpaceOrParenthesis);
    RunConcat(name, [c] + rest, IsWordChar);
    RenderCellAtOf("render_cell" + opener + [q] + name + [c] + rest, opener, b, name, migrate);
  }

  /** No `render_cell` call starts in a stretch without `render_cell`. */
  lemma RenderCellNoneBefore(a: string, u: string, migrate: string -> string)
    requires NoMatchIn(a, u, "render_cell")
    ensures forall k :: 0 <= k < |a| ==> RenderCellMatcher(migrate)((a + u)[k..]).None?
  {
  }

  lemma RenderCellRest(opener: string, q: char, name: string, c: char, rest: string)
    ensures ("render_cell" + opener + [q] + name + [c] + rest)[|opener| + |name| + 13..] == rest
  {
    var call := "render_cell" + opener + [q] + name + [c];
    assert "render_cell" + opener + [q] + name + [c] + rest == call + rest;
  }

  /** `render_cell` calls are rewritten one after the other: text before the
      first call is kept, the call becomes `render_elements ... only: ...,
      fixed: true`, and what follows is rewritten in turn. */
  lemma RenderCellsCall(a: string, opener: string, q: char, name: string, c: char, rest: string, migrate: string -> string)
    requires NoMatchIn(a, "render_cell" + opener + [q] + name + [c] + rest, "render_cell")
    requires opener != [] && forall i :: 0 <= i < |opener| ==> IsSpaceOrParenthesis(opener[i])
    requires IsNameOpener(q) && name != [] && AllWord(name) && !IsWordChar(c)
    ensures RenderCells(a + ("render_cell" + opener + [q] + name + [c] + rest), migrate) ==
      a + ("render_elements" + opener + "only: " + [q] + migrate(name) + [c] + ", fixed: true") + RenderCells(rest, migrate)
  {
    var u := "render_cell" + opener + [q] + name + [c] + rest;
    RenderCellNoneBefore(a, u, migrate);
    RenderCellAtCall(opener, q, name, c, rest, migrate);
    RenderCellRest(opener, q, name, c, rest);
    GsubThroughMatch(a, u, RenderCellMatcher(migrate), RenderCellAt(u, migrate).value);
  }

  lemma RenderCellAtAbsent(t: string, migrate: string -> string)
    requires !StartsWith(t, "render_cell")
    ensures RenderCellAt(t, migrate).None?
  {
  }

  /** Text without `render_cell` is left alone by the first rewrite. */
  lemma RenderCellsAbsent(s: string, migrate: string -> string)
    requires !Contains(s, "render_cell")
    ensures RenderCells(s, migrate) == s
  {
    var m := RenderCellMatcher(migrate);
    forall k | 0 <= k < |s| ensures m(s[k..]).None? {
      RenderCellAtAbsent(s[k..], migrate);
    }
    GsubUnchanged(s, m);
  }

  // ---- /render_elements(.*?)from_cell[:\s=>]+([:'"])(\w+)(['"]?)(.*)/ ----

  /** What the part of the pattern from `from_cell` on takes. */
  datatype FromCellArgument = FromCellArgument(len: nat, quote: char, name: string, close: string, rest: string)

  /** Where the opening `['":]` stands in `v`, the text after `from_cell`, or
      -1. The separator run `[:\s=>]+` is greedy and gives characters back
      only when the rest fails: the opening is either the character after
      the whole run (a quote, since a colon would belong to the run) or,
      failing that, the run's own last character if it is a colon and the
      run is longer than it; giving back more leaves a separator where `\w+`
      must start. */
  function OpeningIndex(v: string): (qi: int)
    ensures -1 <= qi
    ensures qi >= 0 ==> qi + 1 < |v| && IsNameOpener(v[qi]) && IsWordChar(v[qi + 1])
  {
    var n := Run(v, IsSeparator);
    if n < |v| && IsQuote(v[n]) && n + 1 < |v| && IsWordChar(v[n + 1]) then n
    else if n >= 2 && v[n - 1] == ':' && n < |v| && IsWordChar(v[n]) then n - 1
    else -1
  }

  /** What follows the opening at `qi`: `\w+` is maximal because nothing
      after it needs a word character, `['"]?` takes a quote when there is
      one, and `(.*)` takes the rest of the line. */
  function ArgumentAfter(v: string, qi: nat): (arg: FromCellArgument)
    requires qi < |v|
    ensures 0 < arg.len <= |v|
  {
    var w := v[qi + 1..];
    var k := Run(w, IsWordChar);
    CloseAndRest(v[qi], w[..k], w[k..], qi + 1 + k)
  }

  /** `(['"]?)(.*)` on the text `after` the name, which a match of `len`
      characters so far has reached. */
  function CloseAndRest(q: char, name: string, after: string, len: nat): (arg: FromCellArgument)
    ensures len <= arg.len <= len + |after|
  {
    var c := if after != [] && IsQuote(after[0]) then 1 else 0;
    var l := Run(after[c..], NotNewline);
    FromCellArgument(len + c + l, q, name, after[..c], after[c..c + l])
  }

  /** The part of the pattern from `from_cell` on, at the start of `u`. */
  function FromCellArgumentAt(u: string): (r: Option<FromCellArgument>)
    ensures r.Some? ==> 9 < r.value.len <= |u| && StartsWith(u, "from_cell")
  {
    if !StartsWith(u, "from_cell") then None
    else
      var v := u[9..];
      var qi := OpeningIndex(v);
      if qi < 0 then None
      else
        var arg := ArgumentAfter(v, qi);
        Some(arg.(len := 9 + arg.len))
  }

  /** The lazy `(.*?)`: the first position from `j` on, within the line, at
      which the rest of the pattern matches. */
  function FromCellSearch(t: string, j: nat): (r: Option<(nat, FromCellArgument)>)
    requires j <= |t|
    ensures r.Some? ==> j <= r.value.0 && r.value.0 + r.value.1.len <= |t|
    decreases |t| - j
  {
    match FromCellArgumentAt(t[j..])
    case Some(arg) => Some((j, arg))
    case None => if j < |t| && t[j] != '\n' then FromCellSearch(t, j + 1) else None
  }

  /** What the lazy search finds is the first position from `j` on at which
      the part from `from_cell` on matches, with no line break before it. */
  lemma {:induction false} FromCellSearchFirst(t: string, j: nat)
    requires j <= |t| && FromCellSearch(t, j).Some?
    ensures var (e, arg) := FromCellSearch(t, j).value;
      && FromCellArgumentAt(t[e..]) == Some(arg)
      && forall i :: j <= i < e ==> t[i] != '\n' && FromCellArgumentAt(t[i..]).None?
    decreases |t| - j
  {
    if FromCellArgumentAt(t[j..]).None? {
      FromCellSearchFirst(t, j + 1);
    }
  }

  /** When the lazy search finds nothing, the part from `from_cell` on
      matches nowhere from `j` to the end of the line. */
  lemma {:induction false} FromCellSearchNone(t: string, j: nat)
    requires j <= |t| && FromCellSearch(t, j).None?
    ensures forall i :: j <= i <= j + Run(t[j..], NotNewline) ==> FromCellArgumentAt(t[i..]).None?
    decreases |t| - j
  {
    if j < |t| && t[j] != '\n' {
      FromCellSearchNone(t, j + 1);
      assert t[j..][1..] == t[j + 1..];
    }
  }

  /** One match of the `from_cell` pattern at the start of `t`. */
  function FromCellAt(t: string, migrate: string -> string): (r: Option<Rewrite>)
    ensures r.Some? ==> 0 < r.value.len <= |t|
    ensures r.Some? ==> StartsWith(t, "render_elements")
  {
    if !StartsWith(t, "render_elements") then None
    else
      var found := FromCellSearch(t, 15);
      if found.None? then None
      else Some(FromCellRewrite(t[15..found.value.0], found.value.1, migrate))
  }

  /** The replacement: the arguments before `from_cell` are kept, and
      `from_cell` with its separators becomes `only: `. */
  function FromCellRewrite(args: string, arg: FromCellArgument, migrate: string -> string): (w: Rewrite)
    ensures w.len == 15 + |args| + arg.len
  {
    Rewrite(15 + |args| + arg.len,
      "render_elements" + args + "only: " + [arg.quote] + migrate(arg.name) + arg.close + ", fixed: true" + arg.rest)
  }

  function FromCellMatcher(migrate: string -> string): (m: Matcher)
    ensures Advances(m)
    ensures forall t :: m(t) == FromCellAt(t, migrate)
  {
    t => FromCellAt(t, migrate)
  }

  /** The second `gsub!` of the call-site rewrite. */
  function FromCells(s: string, migrate: string -> string): string {
    Gsub(s, FromCellMatcher(migrate))
  }

  /** `update_render_cell_calls` on one file's content: both rewrites, in order. */
  function RewriteCallSites(content: string, migrate: string -> string): string {
    FromCells(RenderCells(content, migrate), migrate)
  }

  /** A closing quote as `(['"]?)` takes it: there exactly when the name is
      followed by a quote. */
  predicate ClosesName(close: string, rest: string) {
    if close == [] then rest == [] || (!IsQuote(rest[0]) && !IsWordChar(rest[0]))
    else |close| == 1 && IsQuote(close[0])
  }

  predicate AllSeparators(sep: string) {
    forall i :: 0 <= i < |sep| ==> IsSeparator(sep[i])
  }

  /** The text after `from_cell` as the pattern takes it: separators, the
      opening quote or colon, the name, an optional closing quote, the rest
      of the line, and the `tail` from the line break on. */
  predicate ArgumentShape(sep: string, q: char, name: string, close: string, rest: string, tail: string) {
    && sep != [] && AllSeparators(sep)
    && IsNameOpener(q) && name != [] && AllWord(name) && ClosesName(close, rest + tail)
    && '\n' !in rest && (tail == [] || tail[0] == '\n')
  }

  lemma ArgumentParts(sep: string, q: char, name: string, more: string)
    ensures var v := sep + ([q] + (name + more));
      && v[|sep|] == q && v[|sep| + 1..] == name + more
      && (name != [] ==> v[|sep| + 1] == name[0])
  {
    var v := sep + ([q] + (name + more));
    assert v[|sep|..] == [q] + (name + more);
  }

  lemma SeparatorRun(sep: string, q: char, name: string, more: string)
    requires AllSeparators(sep) && IsNameOpener(q) && name != [] && IsWordChar(name[0])
    ensures Run(sep + ([q] + (name + more)), IsSeparator) == if q == ':' then |sep| + 1 else |sep|
  {
    var v := sep + ([q] + (name + more));
    assert (name + more)[0] == name[0] && !IsSeparator(name[0]);
    if q == ':' {
      var x := sep + [q];
      assert v == x + (name + more);
      forall i | 0 <= i < |x| ensures IsSeparator(x[i]) {
        if i < |sep| {
          assert x[i] == sep[i];
        }
      }
      RunConcat(x, name + more, IsSeparator);
    } else {
      assert ([q] + (name + more))[0] == q && !IsSeparator(q);
      RunConcat(sep, [q] + (name + more), IsSeparator);
    }
  }

  /** The opening quote or colon is found right after the separators. */
  lemma OpeningIndexCall(sep: string, q: char, name: string, more: string)
    requires sep != [] && AllSeparators(sep)
    requires IsNameOpener(q) && name != [] && IsWordChar(name[0])
    ensures OpeningIndex(sep + ([q] + (name + more))) == |sep|
  {
    ArgumentParts(sep, q, name, more);
    SeparatorRun(sep, q, name, more);
  }

  /** The optional closing quote and the rest of the line. */
  lemma CloseAndRestCall(q: char, name: string, close: string, rest: string, tail: string, len: nat)
    requires ClosesName(close, rest + tail)
    requires '\n' !in rest && (tail == [] || tail[0] == '\n')
    ensures CloseAndRest(q, name, close + (rest + tail), len) == FromCellArgument(len + |close| + |rest|, q, name, close, rest)
  {
    var after := close + (rest + tail);
    var c := |close|;
    assert c == (if after != [] && IsQuote(after[0]) then 1 else 0);
    assert after[c..] == rest + tail && after[..c] == close;
    assert forall i :: 0 <= i < |rest| ==> NotNewline(rest[i]);
    RunConcat(rest, tail, NotNewline);
    assert after[c..c + |rest|] == rest;
  }

  /** What follows the opening: the name, the closing quote if any, and the
      rest of the line. */
  lemma ArgumentAfterCall(sep: string, q: char, name: string, close: string, rest: string, tail: string)
    requires AllWord(name) && ClosesName(close, rest + tail)
    requires '\n' !in rest && (tail == [] || tail[0] == '\n')
    ensures ArgumentAfter(sep + ([q] + (name + (close + (rest + tail)))), |sep|) ==
      FromCellArgument(|sep| + 1 + |name| + |close| + |rest|, q, name, close, rest)
  {
    var more := close + (rest + tail);
    var v := sep + ([q] + (name + more));
    ArgumentParts(sep, q, name, more);
    assert more == [] || !IsWordChar(more[0]) by {
      if close != [] {
        assert more[0] == close[0];
      }
    }
    RunConcat(name, more, IsWordChar);
    var w := name + more;
    assert w[..|name|] == name && w[|name|..] == more;
    CloseAndRestCall(q, name, close, rest, tail, |sep| + 1 + |name|);
  }

  lemma FromCellArgumentAtSteps(u: string, qi: nat, arg: FromCellArgument)
    requires StartsWith(u, "from_cell") && OpeningIndex(u[9..]) == qi
    requires ArgumentAfter(u[9..], qi) == arg
    ensures FromCellArgumentAt(u) == Some(FromCellArgument(9 + arg.len, arg.quote, arg.name, arg.close, arg.rest))
  {
  }

  /** The part from `from_cell` on, once the opening and what follows it are known. */
  lemma FromCellArgumentAtOf(v: string, qi: nat, len: nat, quote: char, name: string, close: string, rest: string)
    requires OpeningIndex(v) == qi && qi < |v| && ArgumentAfter(v, qi) == FromCellArgument(len, quote, name, close, rest)
    ensures FromCellArgumentAt("from_cell" + v) == Some(FromCellArgument(9 + len, quote, name, close, rest))
  {
    var u := "from_cell" + v;
    assert StartsWith(u, "from_cell") && u[9..] == v;
    FromCellArgumentAtSteps(u, qi, FromCellArgument(len, quote, name, close, rest));
  }

  /** The part after `from_cell`: separators, the opening quote or colon,
      the name, an optional closing quote and the rest of the line. */
  lemma OpeningAndArgument(sep: string, q: char, name: string, close: string, rest: string, tail: string)
    requires ArgumentShape(sep, q, name, close, rest, tail)
    ensures var v := sep + ([q] + (name + (close + (rest + tail))));
      && OpeningIndex(v) == |sep|
      && ArgumentAfter(v, |sep|) == FromCellArgument(|sep| + 1 + |name| + |close| + |rest|, q, name, close, rest)
  {
    OpeningIndexCall(sep, q, name, close + (rest + tail));
    ArgumentAfterCall(sep, q, name, close, rest, tail);
  }

  /** The lazy search passes over arguments without a line break and without
      a `from_cell` of their own. */
  lemma {:induction false} FromCellSearchSkips(t: string, j: nat, e: nat)
    requires j <= e <= |t|
    requires forall i :: j <= i < e ==> t[i] != '\n' && !StartsWith(t[i..], "from_cell")
    ensures FromCellSearch(t, j) == FromCellSearch(t, e)
    decreases e - j
  {
    if j < e {
      assert FromCellArgumentAt(t[j..]).None?;
      FromCellSearchSkips(t, j + 1, e);
    }
  }

  /** The arguments before `from_cell`, as the search sees them. */
  lemma ArgumentsSkipped(args: string, arg: string)
    requires '\n' !in args && NoMatchIn(args, arg, "from_cell")
    ensures var t := "render_elements" + (args + arg);
      && StartsWith(t, "render_elements") && t[15..15 + |args|] == args && t[15 + |args|..] == arg
      && forall i :: 15 <= i < 15 + |args| ==> t[i] != '\n' && !StartsWith(t[i..], "from_cell")
  {
    var t := "render_elements" + (args + arg);
    assert t[15..] == args + arg;
    forall i | 15 <= i < 15 + |args| ensures t[i] != '\n' && !StartsWith(t[i..], "from_cell") {
      assert t[i] == args[i - 15];
      assert t[i..] == (args + arg)[i - 15..];
    }
  }

  lemma FromCellSearchAt(t: string, e: nat, u: string)
    requires e <= |t| && t[e..] == u && FromCellArgumentAt(u).Some?
    ensures FromCellSearch(t, e) == Some((e, FromCellArgumentAt(u).value))
  {
  }

  lemma FromCellAtSteps(t: string, e: nat, args: string, arg: FromCellArgument, migrate: string -> string)
    requires StartsWith(t, "render_elements") && 15 <= e <= |t| && FromCellSearch(t, 15) == Some((e, arg))
    requires t[15..e] == args
    ensures FromCellAt(t, migrate) == Some(FromCellRewrite(args, arg, migrate))
  {
  }

  lemma FromCellRewriteOf(args: string, len: nat, quote: char, name: string, close: string, rest: string, migrate: string -> string)
    ensures FromCellRewrite(args, FromCellArgument(len, quote, name, close, rest), migrate) ==
      Rewrite(15 + |args| + len, "render_elements" + args + "only: " + [quote] + migrate(name) + close + ", fixed: true" + rest)
  {
  }

  /** The match once the part from `from_cell` on is known. */
  lemma FromCellAtOf(args: string, u: string, len: nat, quote: char, name: string, close: string, rest: string, migrate: string -> string)
    requires '\n' !in args && NoMatchIn(args, u, "from_cell")
    requires FromCellArgumentAt(u) == Some(FromCellArgument(len, quote, name, close, rest))
    ensures FromCellAt("render_elements" + (args + u), migrate) ==
      Some(Rewrite(15 + |args| + len, "render_elements" + args + "only: " + [quote] + migrate(name) + close + ", fixed: true" + rest))
  {
    var t := "render_elements" + (args + u);
    FromCellSearchPastArguments(args, u);
    var e: nat := 15 + |args|;
    FromCellAtSteps(t, e, args, FromCellArgument(len, quote, name, close, rest), migrate);
    FromCellRewriteOf(args, len, quote, name, close, rest, migrate);
  }

  /** The lazy search reaches the `from_cell` that follows the arguments. */
  lemma FromCellSearchPastArguments(args: string, arg: string)
    requires '\n' !in args && NoMatchIn(args, arg, "from_cell")
    requires FromCellArgumentAt(arg).Some?
    ensures var t := "render_elements" + (args + arg);
      && StartsWith(t, "render_elements") && t[15..15 + |args|] == args
      && FromCellSearch(t, 15) == Some((15 + |args|, FromCellArgumentAt(arg).value))
  {
    var t := "render_elements" + (args + arg);
    ArgumentsSkipped(args, arg);
    FromCellSearchSkips(t, 15, 15 + |args|);
    FromCellSearchAt(t, 15 + |args|, arg);
  }

  /** Without `from_cell` the search finds nothing. */
  lemma {:induction false} FromCellSearchAbsent(t: string, j: nat)
    requires j <= |t| && !Contains(t, "from_cell")
    ensures FromCellSearch(t, j).None?
    decreases |t| - j
  {
    assert FromCellArgumentAt(t[j..]).None?;
    if j < |t| && t[j] != '\n' {
      FromCellSearchAbsent(t, j + 1);
    }
  }

  /** Text without `from_cell` is left alone by the second rewrite. */
  lemma FromCellsAbsent(s: string, migrate: string -> string)
    requires !Contains(s, "from_cell")
    ensures FromCells(s, migrate) == s
  {
    var m := FromCellMatcher(migrate);
    forall k | 0 <= k < |s| ensures m(s[k..]).None? {
      var t := s[k..];
      if StartsWith(t, "render_elements") {
        AbsentFromSuffix(s, k, "from_cell");
        FromCellSearchAbsent(t, 15);
      }
      assert FromCellAt(t, migrate).None?;
    }
    GsubUnchanged(s, m);
  }

  lemma EmptyFront(x: string)
    ensures [] + x == x
  {
  }

  /** A line with one `render_cell` call: the call is rewritten and the rest
      of the line after the character that follows the name is kept. */
  lemma RenderCellsOne(opener: string, q: char, name: string, c: char, rest: string, migrate: string -> string)
    requires opener != [] && forall i :: 0 <= i < |opener| ==> IsSpaceOrParenthesis(opener[i])
    requires IsNameOpener(q) && name != [] && AllWord(name) && !IsWordChar(c)
    requires !Contains(rest, "render_cell")
    ensures RenderCells("render_cell" + opener + [q] + name + [c] + rest, migrate) ==
      "render_elements" + opener + "only: " + [q] + migrate(name) + [c] + ", fixed: true" + rest
  {
    var call := "render_cell" + opener + [q] + name + [c] + rest;
    var rewritten := "render_elements" + opener + "only: " + [q] + migrate(name) + [c] + ", fixed: true";
    EmptyFront(call);
    EmptyFront(rewritten);
    RenderCellsCall([], opener, q, name, c, rest, migrate);
    RenderCellsAbsent(rest, migrate);
  }

  /** `render_cell('test')` becomes `render_elements(only: 'test', fixed: true)`
      when the migrator keeps the name. */
  lemma RenderCellsExample(migrate: string -> string)
    requires migrate("test") == "test"
    ensures RenderCells("render_cell" + "(" + "'" + "test" + "'" + ")", migrate)
         == "render_elements" + "(" + "only: " + "'" + "test" + "'" + ", fixed: true" + ")"
  {
    RenderCellsOne("(", '\'', "test", '\'', ")", migrate);
  }

  /** A `render_elements ... from_cell ...` line: the arguments before
      `from_cell` are kept, `from_cell` and its separators become `only: `,
      `, fixed: true` follows the name and its closing quote, then the rest
      of the line; the lines after it are rewritten in turn. */
  lemma FromCellsLine(args: string, sep: string, q: char, name: string, close: string, rest: string, tail: string, migrate: string -> string)
    requires '\n' !in args
    requires NoMatchIn(args, "from_cell" + (sep + ([q] + (name + (close + (rest + tail))))), "from_cell")
    requires ArgumentShape(sep, q, name, close, rest, tail)
    ensures FromCells("render_elements" + (args + ("from_cell" + (sep + ([q] + (name + (close + (rest + tail))))))), migrate)
         == "render_elements" + args + "only: " + [q] + migrate(name) + close + ", fixed: true" + rest + FromCells(tail, migrate)
  {
    var v := sep + ([q] + (name + (close + (rest + tail))));
    var len := |sep| + 1 + |name| + |close| + |rest|;
    OpeningAndArgument(sep, q, name, close, rest, tail);
    ArgumentTail(sep, q, name, close, rest, tail);
    FromCellsOfArgument(args, v, |sep|, len, q, name, close, rest, tail, migrate);
  }

  /** `render_elements testing: 'blubb', from_cell: :page_intro` becomes
      `render_elements testing: 'blubb', only: :page_intro, fixed: true` when
      the migrator keeps the name. */
  lemma FromCellsExample(migrate: string -> string)
    requires migrate("page_intro") == "page_intro"
    ensures FromCells("render_elements" + (" testing: 'blubb', " + ("from_cell" + (": " + ([':'] + ("page_intro" + ("" + ("" + ""))))))), migrate)
         == "render_elements" + " testing: 'blubb', " + "only: " + [':'] + "page_intro" + "" + ", fixed: true" + "" + ""
  {
    var args := " testing: 'blubb', ";
    NoMatchWithoutFirst(args, "from_cell" + (": " + ([':'] + ("page_intro" + ("" + ("" + ""))))), "from_cell");
    FromCellsLine(args, ": ", ':', "page_intro", "", "", "", migrate);
  }

  lemma ArgumentTail(sep: string, q: char, name: string, close: string, rest: string, tail: string)
    ensures |sep + ([q] + (name + (close + (rest + tail))))| == |sep| + 1 + |name| + |close| + |rest| + |tail|
    ensures (sep + ([q] + (name + (close + (rest + tail)))))[|sep| + 1 + |name| + |close| + |rest|..] == tail
  {
    var v := sep + ([q] + (name + (close + (rest + tail))));
    assert v == (sep + [q] + name + close + rest) + tail;
  }

  /** The second rewrite on a line once the opening after `from_cell` and
      what follows it are known. */
  lemma FromCellsOfArgument(args: string, v: string, qi: nat, len: nat, q: char, name: string, close: string, rest: string, tail: string, migrate: string -> string)
    requires '\n' !in args && NoMatchIn(args, "from_cell" + v, "from_cell")
    requires OpeningIndex(v) == qi && qi < |v| && ArgumentAfter(v, qi) == FromCellArgument(len, q, name, close, rest)
    requires len <= |v| && v[len..] == tail
    ensures FromCells("render_elements" + (args + ("from_cell" + v)), migrate)
         == "render_elements" + args + "only: " + [q] + migrate(name) + close + ", fixed: true" + rest + FromCells(tail, migrate)
  {
    FromCellArgumentAtOf(v, qi, len, q, name, close, rest);
    DropAfterPrefix("from_cell", v, len);
    FromCellsAtOf(args, "from_cell" + v, 9 + len, q, name, close, rest, tail, migrate);
  }

  lemma DropAfterPrefix(p: string, v: string, len: nat)
    requires len <= |v|
    ensures (p + v)[|p| + len..] == v[len..]
  {
    assert (p + v)[|p|..] == v;
  }

  /** The second rewrite once the part from `from_cell` on is known. */
  lemma FromCellsAtOf(args: string, u: string, len: nat, quote: char, name: string, close: string, rest: string, tail: string, migrate: string -> string)
    requires '\n' !in args && NoMatchIn(args, u, "from_cell")
    requires FromCellArgumentAt(u) == Some(FromCellArgument(len, quote, name, close, rest))
    requires len <= |u| && u[len..] == tail
    ensures FromCells("render_elements" + (args + u), migrate) ==
      "render_elements" + args + "only: " + [quote] + migrate(name) + close + ", fixed: true" + rest + FromCells(tail, migrate)
  {
    CallEnd(args, u, len, tail);
    FromCellsAtEnd(args, u, len, quote, name, close, rest, tail, migrate);
  }

  /** What follows the call is what follows its argument. */
  lemma CallEnd(args: string, u: string, len: nat, tail: string)
    requires len <= |u| && u[len..] == tail
    ensures ("render_elements" + (args + u))[15 + |args| + len..] == tail
  {
    var t := "render_elements" + (args + u);
    assert t[15 + |args|..] == u;
  }

  lemma FromCellsAtEnd(args: string, u: string, len: nat, quote: char, name: string, close: string, rest: string, tail: string, migrate: string -> string)
    requires '\n' !in args && NoMatchIn(args, u, "from_cell")
    requires FromCellArgumentAt(u) == Some(FromCellArgument(len, quote, name, close, rest))
    requires ("render_elements" + (args + u))[15 + |args| + len..] == tail
    ensures FromCells("render_elements" + (args + u), migrate) ==
      "render_elements" + args + "only: " + [quote] + migrate(name) + close + ", fixed: true" + rest + FromCells(tail, migrate)
  {
    FromCellAtOf(args, u, len, quote, name, close, rest, migrate);
    FromCellsAt("render_elements" + (args + u),
      Rewrite(15 + |args| + len, "render_elements" + args + "only: " + [quote] + migrate(name) + close + ", fixed: true" + rest), tail, migrate);
  }

  /** Where a `from_cell` call matches at the start, the second rewrite
      replaces it and goes on after it. */
  lemma FromCellsAt(t: string, w: Rewrite, tail: string, migrate: string -> string)
    requires FromCellAt(t, migrate) == Some(w) && t[w.len..] == tail
    ensures FromCells(t, migrate) == w.text + FromCells(tail, migrate)
  {
    GsubAtMatch(t, FromCellMatcher(migrate));
  }

  lemma RewriteCallSitesUnchanged(content: string, migrate: string -> string)
    requires !Contains(content, "render_cell") && !Contains(content, "from_cell")
    ensures RewriteCallSites(content, migrate) == content
  {
    RenderCellsAbsent(content, migrate);
    FromCellsAbsent(content, migrate);
  }
}
