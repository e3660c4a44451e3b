/**
 * Text primitives shared by the upgrader model: Ruby's ASCII character
 * classes, a left-to-right global substitution (`String#gsub`) driven by a
 * hand-written matcher, literal `sub`/`gsub`, and `Array#join` with its
 * inverse for comma-separated item lists.
 */
module Text {

  datatype Option<T> = None | Some(value: T)

  /** Ruby's `\w` on a binary or ASCII string: `[a-zA-Z0-9_]`. */
  predicate IsWordChar(c: char) {
    ('a' <= c <= 'z') || ('A' <= c <= 'Z') || ('0' <= c <= '9') || c == '_'
  }

  /** A string that `\w*` takes whole. */
  predicate AllWord(w: string) {
    forall i :: 0 <= i < |w| ==> IsWordChar(w[i])
  }

  /** Ruby's `\s`: space, tab, line feed, vertical tab, form feed, carriage return. */
  predicate IsSpace(c: char) {
    c == ' ' || c == '\t' || c == '\n' || c == '\U{B}' || c == '\U{C}' || c == '\r'
  }

  /** `[\s(]`, the opener of a call's arguments. */
  predicate IsSpaceOrParenthesis(c: char) {
    IsSpace(c) || c == '('
  }

  /** Ruby's `.` without the multi-line flag: anything but a line feed. */
  predicate NotNewline(c: char) {
    c != '\n'
  }

  predicate StartsWith(s: string, p: string) {
    |p| <= |s| && s[..|p|] == p
  }

  /** How a concatenation splits back into its parts. */
  lemma SplitAt(a: string, b: string)
    ensures StartsWith(a + b, a) && (a + b)[..|a|] == a && (a + b)[|a|..] == b
  {
  }

  /** `p` occurs in `s` at some position. */
  predicate Contains(s: string, p: string) {
    exists k :: 0 <= k <= |s| && StartsWith(s[k..], p)
  }

  /** What does not occur in `s` does not occur in any suffix of it. */
  lemma AbsentFromSuffix(s: string, k: nat, p: string)
    requires k <= |s| && !Contains(s, p)
    ensures !Contains(s[k..], p)
  {
    forall i | 0 <= i <= |s[k..]| ensures !StartsWith(s[k..][i..], p) {
      assert s[k..][i..] == s[k + i..];
    }
  }

  /** Length of the longest prefix of `s` whose characters all satisfy `p`
      (a greedy `p*`). */
  function Run(s: string, p: char -> bool): (n: nat)
    ensures n <= |s|
    ensures n < |s| ==> !p(s[n])
  {
    if s == [] || !p(s[0]) then 0 else 1 + Run(s[1..], p)
  }

  /** Every character of the run satisfies `p`. */
  lemma {:induction false} RunAll(s: string, p: char -> bool, i: nat)
    requires i < Run(s, p)
    ensures p(s[i])
    decreases i
  {
    if i > 0 {
      RunAll(s[1..], p, i - 1);
    }
  }

  /** A greedy run over a stretch that satisfies `p` ends exactly where the
      stretch does, when the next character fails `p` or there is none. */
  lemma {:induction false} RunConcat(x: string, rest: string, p: char -> bool)
    requires forall i :: 0 <= i < |x| ==> p(x[i])
    requires rest == [] || !p(rest[0])
    ensures Run(x + rest, p) == |x|
    decreases |x|
  {
    if x == [] {
      assert x + rest == rest;
    } else {
      assert (x + rest)[0] == x[0];
      assert (x + rest)[1..] == x[1..] + rest;
      RunConcat(x[1..], rest, p);
    }
  }

  /** A greedy run over a stretch that satisfies `p` goes on into what follows. */
  lemma {:induction false} RunSkip(x: string, rest: string, p: char -> bool)
    requires forall i :: 0 <= i < |x| ==> p(x[i])
    ensures Run(x + rest, p) == |x| + Run(rest, p)
    decreases |x|
  {
    if x == [] {
      assert x + rest == rest;
    } else {
      assert (x + rest)[0] == x[0];
      assert (x + rest)[1..] == x[1..] + rest;
      RunSkip(x[1..], rest, p);
    }
  }

  /** One successful match at the start of the remaining input: how many
      characters it consumes and the text it is replaced by. */
  datatype Rewrite = Rewrite(len: nat, text: string)

  /** A matcher is tried on every remaining suffix of the input; it looks at no
      character before its start (none of the upgrader's patterns are anchored). */
  type Matcher = string -> Option<Rewrite>

  /** Every match consumes at least one character and no more than are left. */
  ghost predicate Advances(m: Matcher) {
    forall t :: m(t).Some? ==> 0 < m(t).value.len <= |t|
  }

  /** Ruby's `gsub`: scan left to right; where the matcher succeeds emit its
      replacement and resume after the match, otherwise copy one character. */
  function Gsub(s: string, m: Matcher): string
    requires Advances(m)
    decreases |s|
  {
    if s == [] then []
    else match m(s)
      case Some(w) => w.text + Gsub(s[w.len..], m)
      case None => [s[0]] + Gsub(s[1..], m)
  }

  /** `gsub` where the matcher succeeds at the very start. */
  lemma GsubAtMatch(s: string, m: Matcher)
    requires Advances(m) && m(s).Some?
    ensures Gsub(s, m) == m(s).value.text + Gsub(s[m(s).value.len..], m)
  {
  }

  /** Where the matcher succeeds nowhere, `gsub` gives back its input unchanged. */
  lemma {:induction false} GsubUnchanged(s: string, m: Matcher)
    requires Advances(m)
    requires forall k :: 0 <= k < |s| ==> m(s[k..]).None?
    ensures Gsub(s, m) == s
    decreases |s|
  {
    if s != [] {
      assert s[0..] == s;
      forall k | 0 <= k < |s[1..]| ensures m(s[1..][k..]).None? {
        assert s[1..][k..] == s[k + 1..];
      }
      GsubUnchanged(s[1..], m);
    }
  }

  /** `gsub` copies a stretch `a` in which no match starts, character for character. */
  lemma {:induction false} GsubSkips(a: string, b: string, m: Matcher)
    requires Advances(m)
    requires forall k :: 0 <= k < |a| ==> m((a + b)[k..]).None?
    ensures Gsub(a + b, m) == a + Gsub(b, m)
    decreases |a|
  {
    if a != [] {
      assert (a + b)[0..] == a + b;
      assert (a + b)[1..] == a[1..] + b;
      forall k | 0 <= k < |a[1..]| ensures m((a[1..] + b)[k..]).None? {
        assert (a[1..] + b)[k..] == (a + b)[k + 1..];
      }
      GsubSkips(a[1..], b, m);
    }
  }

  /** `gsub` over a stretch `a` without a match followed by a match at `u`:
      `a` is kept, the match is replaced, and scanning resumes after it. */
  lemma GsubThroughMatch(a: string, u: string, m: Matcher, w: Rewrite)
    requires Advances(m)
    requires forall k :: 0 <= k < |a| ==> m((a + u)[k..]).None?
    requires m(u) == Some(w)
    ensures Gsub(a + u, m) == a + w.text + Gsub(u[w.len..], m)
  {
    GsubSkips(a, u, m);
    GsubAtMatch(u, m);
  }

  /** Every replacement is longer than the text it replaces. */
  ghost predicate Grows(m: Matcher) {
    forall t :: m(t).Some? ==> |m(t).value.text| > m(t).value.len
  }

  lemma {:induction false} GsubNotShorter(s: string, m: Matcher)
    requires Advances(m) && Grows(m)
    ensures |Gsub(s, m)| >= |s|
    decreases |s|
  {
    if s != [] {
      match m(s)
      case Some(w) => GsubNotShorter(s[w.len..], m);
      case None => GsubNotShorter(s[1..], m);
    }
  }

  /** With a growing matcher, `gsub` changes its input as soon as the matcher
      succeeds somewhere in it. */
  lemma {:induction false} GsubGrowsAtMatch(s: string, m: Matcher, k: nat)
    requires Advances(m) && Grows(m)
    requires k < |s| && m(s[k..]).Some?
    ensures |Gsub(s, m)| > |s|
    decreases k
  {
    if m(s).Some? {
      GsubNotShorter(s[m(s).value.len..], m);
    } else {
      assert k != 0 by { assert s[0..] == s; }
      assert s[1..][k - 1..] == s[k..];
      GsubGrowsAtMatch(s[1..], m, k - 1);
    }
  }

  /** The matcher for a literal pattern and a constant replacement. */
  function Literal(pat: string, rep: string): (m: Matcher)
    requires |pat| > 0
    ensures Advances(m)
    ensures forall t :: m(t).Some? <==> StartsWith(t, pat)
  {
    t => if StartsWith(t, pat) then Some(Rewrite(|pat|, rep)) else None
  }

  /** `s.gsub(pat, rep)` for a literal `pat`, written out directly;
      `ReplaceAllIsGsub` shows it is `Gsub` with the literal matcher. */
  function ReplaceAll(s: string, pat: string, rep: string): string
    requires |pat| > 0
    decreases |s|
  {
    if s == [] then []
    else if StartsWith(s, pat) then rep + ReplaceAll(s[|pat|..], pat, rep)
    else [s[0]] + ReplaceAll(s[1..], pat, rep)
  }

  lemma {:induction false} ReplaceAllIsGsub(s: string, pat: string, rep: string)
    requires |pat| > 0
    ensures ReplaceAll(s, pat, rep) == Gsub(s, Literal(pat, rep))
    decreases |s|
  {
    if s != [] {
      if StartsWith(s, pat) {
        ReplaceAllIsGsub(s[|pat|..], pat, rep);
      } else {
        ReplaceAllIsGsub(s[1..], pat, rep);
      }
    }
  }

  /** No occurrence of `pat` starts inside `a`, even one that runs on into `pat + b`. */
  predicate NoMatchIn(a: string, b: string, pat: string) {
    forall k :: 0 <= k < |a| ==> !StartsWith((a + b)[k..], pat)
  }

  /** A pattern whose first character is not in `a` cannot start inside it. */
  lemma NoMatchWithoutFirst(a: string, b: string, pat: string)
    requires |pat| > 0 && pat[0] !in a
    ensures NoMatchIn(a, b, pat)
  {
    forall k | 0 <= k < |a| ensures !StartsWith((a + b)[k..], pat) {
      assert (a + b)[k..][0] == a[k];
    }
  }

  /** An occurrence that would start inside `a` needs no more of what
      follows than the pattern's own length. */
  lemma NoMatchInExtend(a: string, p: string, b: string, pat: string)
    requires |pat| <= |p| && NoMatchIn(a, p, pat)
    ensures NoMatchIn(a, p + b, pat)
  {
    forall k | 0 <= k < |a| ensures !StartsWith((a + (p + b))[k..], pat) {
      if |pat| <= |(a + (p + b))[k..]| {
        assert (a + (p + b))[k..][..|pat|] == (a + p)[k..][..|pat|];
      }
    }
  }

  /** Literal `gsub` leaves text without an occurrence of the pattern alone. */
  lemma {:induction false} ReplaceAllAbsent(s: string, pat: string, rep: string)
    requires |pat| > 0 && !Contains(s, pat)
    ensures ReplaceAll(s, pat, rep) == s
    decreases |s|
  {
    if s != [] {
      assert s[0..] == s;
      assert !Contains(s[1..], pat) by {
        forall k | 0 <= k <= |s[1..]| ensures !StartsWith(s[1..][k..], pat) {
          assert s[1..][k..] == s[k + 1..];
        }
      }
      ReplaceAllAbsent(s[1..], pat, rep);
    }
  }

  /** Literal `gsub` copies a stretch `a` in which no occurrence starts. */
  lemma {:induction false} ReplaceAllSkips(a: string, b: string, pat: string, rep: string)
    requires |pat| > 0 && NoMatchIn(a, b, pat)
    ensures ReplaceAll(a + b, pat, rep) == a + ReplaceAll(b, pat, rep)
    decreases |a|
  {
    if a != [] {
      assert (a + b)[0..] == a + b;
      assert (a + b)[1..] == a[1..] + b;
      assert NoMatchIn(a[1..], b, pat) by {
        forall k | 0 <= k < |a[1..]| ensures !StartsWith((a[1..] + b)[k..], pat) {
          assert (a[1..] + b)[k..] == (a + b)[k + 1..];
        }
      }
      ReplaceAllSkips(a[1..], b, pat, rep);
    } else {
      assert a + b == b;
    }
  }

  /** Literal `gsub` at the first occurrence: the text before it is kept, the
      occurrence becomes `rep`, and scanning resumes right after it. */
  lemma ReplaceAllFirst(a: string, pat: string, rep: string, b: string)
    requires |pat| > 0 && NoMatchIn(a, pat + b, pat)
    ensures ReplaceAll(a + pat + b, pat, rep) == a + rep + ReplaceAll(b, pat, rep)
  {
    assert a + pat + b == a + (pat + b);
    ReplaceAllSkips(a, pat + b, pat, rep);
    assert StartsWith(pat + b, pat);
    assert (pat + b)[|pat|..] == b;
  }

  /** `s.sub(pat, rep)` for a literal `pat`: only the first occurrence is replaced. */
  function ReplaceFirst(s: string, pat: string, rep: string): string
    requires |pat| > 0
    decreases |s|
  {
    if |s| < |pat| then s
    else if StartsWith(s, pat) then rep + s[|pat|..]
    else [s[0]] + ReplaceFirst(s[1..], pat, rep)
  }

  /** `sub` without an occurrence changes nothing. */
  lemma {:induction false} ReplaceFirstAbsent(s: string, pat: string, rep: string)
    requires |pat| > 0 && !Contains(s, pat)
    ensures ReplaceFirst(s, pat, rep) == s
    decreases |s|
  {
    if |s| >= |pat| {
      assert s[0..] == s;
      assert !Contains(s[1..], pat) by {
        forall k | 0 <= k <= |s[1..]| ensures !StartsWith(s[1..][k..], pat) {
          assert s[1..][k..] == s[k + 1..];
        }
      }
      ReplaceFirstAbsent(s[1..], pat, rep);
    }
  }

  /** `sub` with the first occurrence at `k` splices `rep` in at `k` and keeps
      everything after the occurrence verbatim. */
  lemma {:induction false} ReplaceFirstAt(s: string, pat: string, rep: string, k: nat)
    requires |pat| > 0 && k + |pat| <= |s| && StartsWith(s[k..], pat)
    requires forall j :: 0 <= j < k ==> !StartsWith(s[j..], pat)
    ensures ReplaceFirst(s, pat, rep) == s[..k] + rep + s[k + |pat|..]
    decreases k
  {
    if k == 0 {
      assert s[0..] == s && s[..0] + rep + s[|pat|..] == rep + s[|pat|..];
    } else {
      var t := s[1..];
      assert s[0..] == s;
      ReplaceFirstShift(s, pat, rep, k);
      ReplaceFirstAt(t, pat, rep, k - 1);
      SplitAfterFirst(s, k, k + |pat|);
      PrependSplice(s[0], t[..k - 1], rep, t[k - 1 + |pat|..], s[..k]);
    }
  }

  /** Past a position where `pat` does not start, `sub` keeps the first
      character and searches the rest. */
  lemma ReplaceFirstShift(s: string, pat: string, rep: string, k: nat)
    requires |pat| > 0 && 0 < k && k + |pat| <= |s| && StartsWith(s[k..], pat)
    requires forall j :: 0 <= j < k ==> !StartsWith(s[j..], pat)
    ensures ReplaceFirst(s, pat, rep) == [s[0]] + ReplaceFirst(s[1..], pat, rep)
    ensures StartsWith(s[1..][k - 1..], pat)
    ensures forall j :: 0 <= j < k - 1 ==> !StartsWith(s[1..][j..], pat)
  {
    assert s[0..] == s;
    forall j | 0 <= j < k - 1 ensures !StartsWith(s[1..][j..], pat) {
      assert s[1..][j..] == s[j + 1..];
    }
    assert s[1..][k - 1..] == s[k..];
  }

  lemma PrependSplice(c: char, x: string, rep: string, y: string, head: string)
    requires [c] + x == head
    ensures [c] + (x + rep + y) == head + rep + y
  {
  }

  lemma SplitAfterFirst(s: string, k: nat, m: nat)
    requires 0 < k <= m <= |s|
    ensures [s[0]] + s[1..][..k - 1] == s[..k] && s[1..][m - 1..] == s[m..]
  {
  }

  /** Ruby's `Array#join(sep)` on strings. */
  function Join(xs: seq<string>, sep: string): string
    decreases |xs|
  {
    if |xs| == 0 then ""
    else if |xs| == 1 then xs[0]
    else xs[0] + sep + Join(xs[1..], sep)
  }

  /** Index of the first ',' in `s`, or `|s|` when there is none. */
  function CommaIndex(s: string): (k: nat)
    ensures k <= |s|
    ensures k < |s| ==> s[k] == ','
    ensures forall i :: 0 <= i < k ==> s[i] != ','
  {
    if s == [] || s[0] == ',' then 0 else 1 + CommaIndex(s[1..])
  }

  /** Splits a non-empty `a, b, c` item list at each ',' (and the single blank
      after it, when there is one). */
  function SplitItems(s: string): seq<string>
    decreases |s|
  {
    var k := CommaIndex(s);
    if k == |s| then [s]
    else [s[..k]] + SplitItems(if k + 1 < |s| && s[k + 1] == ' ' then s[k + 2..] else s[k + 1..])
  }

  /** Reads the items of a YAML flow list body such as `a, b`; `""` is the empty list. */
  function ParseItems(s: string): seq<string> {
    if s == "" then [] else SplitItems(s)
  }

  /** An item that `join(', ')` followed by `ParseItems` reproduces. */
  predicate PlainItem(x: string) {
    x != "" && ',' !in x
  }

  lemma CommaIndexPlain(x: string, rest: string)
    requires ',' !in x
    ensures CommaIndex(x + rest) == |x| + CommaIndex(rest)
    decreases |x|
  {
    if x != [] {
      assert x[0] in x;
      assert (x + rest)[0] == x[0];
      assert (x + rest)[1..] == x[1..] + rest;
      assert ',' !in x[1..] by {
        forall i | 0 <= i < |x[1..]| ensures x[1..][i] != ',' { assert x[1..][i] == x[i + 1]; }
      }
      CommaIndexPlain(x[1..], rest);
    } else {
      assert x + rest == rest;
    }
  }

  /** Round trip: the item list written by `join(', ')` reads back as the same items. */
  lemma {:induction false} JoinParseItems(xs: seq<string>)
    requires forall i :: 0 <= i < |xs| ==> PlainItem(xs[i])
    ensures ParseItems(Join(xs, ", ")) == xs
    decreases |xs|
  {
    if |xs| == 1 {
      CommaIndexPlain(xs[0], "");
      assert xs[0] + "" == xs[0];
    } else if |xs| > 1 {
      var x, tail := xs[0], Join(xs[1..], ", ");
      assert |xs[1..]| > 0 && PlainItem(xs[1..][0]);
      JoinNonEmpty(xs[1..]);
      var s := x + ", " + tail;
      assert s == x + (", " + tail);
      CommaIndexPlain(x, ", " + tail);
      assert s[..|x|] == x;
      assert s[|x| + 2..] == tail;
      JoinParseItems(xs[1..]);
    }
  }

  lemma {:induction false} JoinNonEmpty(xs: seq<string>)
    requires |xs| > 0 && xs[0] != ""
    ensures Join(xs, ", ") != ""
  {
    if |xs| > 1 {
      assert |Join(xs, ", ")| >= |xs[0]|;
    }
  }
}
