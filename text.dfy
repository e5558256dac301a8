/**
 * The string operations the line reassembler and the record filter rely on:
 * `str.split("\n")` and `"\n".join(...)`, `str.strip()` and the substring
 * test `needle in haystack`.
 */
module Text {
  import opened Seqs

  /** True when `s` holds no line separator. */
  predicate NoNewline(s: string) {
    '\n' !in s
  }

  /** The number of line separators in `s`. */
  function Count(s: string): (n: nat)
    ensures n <= |s|
    ensures n == 0 <==> NoNewline(s)
  {
    if s == [] then 0 else (if s[0] == '\n' then 1 else 0) + Count(s[1..])
  }

  /** `"\n".join(parts)`: the parts with one separator between neighbours. */
  function Join(parts: seq<string>): string
  {
    if parts == [] then ""
    else if |parts| == 1 then parts[0]
    else parts[0] + "\n" + Join(parts[1..])
  }

  /** Every part followed by its own separator, as lines are written to a file. */
  function Terminated(parts: seq<string>): string
  {
    if parts == [] then "" else parts[0] + "\n" + Terminated(parts[1..])
  }

  /**
   * `s.split("\n")`: the separator-free pieces of `s`, in order, one more
   * than there are separators (JoinSplit: joining them gives `s` back).
   */
  function Split(s: string): (parts: seq<string>)
    ensures |parts| == Count(s) + 1
    ensures forall i :: 0 <= i < |parts| ==> NoNewline(parts[i])
  {
    if s == [] then [""]
    else
      var tail := Split(s[1..]);
      if s[0] == '\n' then [""] + tail
      else [[s[0]] + tail[0]] + tail[1..]
  }

  lemma JoinUnfold(parts: seq<string>)
    requires |parts| > 1
    ensures Join(parts) == parts[0] + ("\n" + Join(parts[1..]))
  {
    AppendAssoc(parts[0], "\n", Join(parts[1..]));
  }

  lemma ConsHeadShape(c: char, parts: seq<string>, q: seq<string>)
    requires |parts| >= 1 && q == [[c] + parts[0]] + parts[1..]
    ensures |q| == |parts| && q[0] == [c] + parts[0] && q[1..] == parts[1..]
  {
  }

  lemma JoinConsHead(c: char, parts: seq<string>)
    requires |parts| >= 1
    ensures Join([[c] + parts[0]] + parts[1..]) == [c] + Join(parts)
  {
    var q := [[c] + parts[0]] + parts[1..];
    ConsHeadShape(c, parts, q);
    if |parts| > 1 {
      JoinUnfold(q);
      JoinUnfold(parts);
      AppendAssoc([c], parts[0], "\n" + Join(parts[1..]));
    }
  }

  /** Joining the pieces of a split gives the text back. */
  lemma {:induction false} JoinSplit(s: string)
    ensures Join(Split(s)) == s
  {
    if s != [] {
      var tail := Split(s[1..]);
      JoinSplit(s[1..]);
      assert s == [s[0]] + s[1..];
      if s[0] != '\n' {
        JoinConsHead(s[0], tail);
      }
    }
  }

  lemma {:induction false} TerminatedConcat(xs: seq<string>, ys: seq<string>)
    ensures Terminated(xs + ys) == Terminated(xs) + Terminated(ys)
  {
    if xs == [] {
      assert xs + ys == ys;
    } else {
      assert (xs + ys)[1..] == xs[1..] + ys;
      TerminatedConcat(xs[1..], ys);
    }
  }

  /** Writing every part with its separator is joining them and ending with one separator. */
  lemma {:induction false} JoinThenNewline(parts: seq<string>)
    requires parts != []
    ensures Join(parts) + "\n" == Terminated(parts)
  {
    if |parts| > 1 {
      JoinThenNewline(parts[1..]);
    }
  }

  /** Joining complete lines and one last piece is writing the lines and then the piece. */
  lemma {:induction false} JoinLast(parts: seq<string>, last: string)
    ensures Join(parts + [last]) == Terminated(parts) + last
  {
    if parts != [] {
      assert (parts + [last])[1..] == parts[1..] + [last];
      JoinLast(parts[1..], last);
    }
  }

  /** Every piece of a split but the last, each with its separator, then the last piece, is the text. */
  lemma SplitLast(s: string)
    ensures var parts := Split(s);
            Terminated(parts[..|parts| - 1]) + parts[|parts| - 1] == s
  {
    var parts := Split(s);
    var n := |parts| - 1;
    JoinSplit(s);
    assert parts == parts[..n] + [parts[n]];
    JoinLast(parts[..n], parts[n]);
  }

  /** Splitting text that starts with a separator-free piece. */
  lemma {:induction false} SplitPrefix(p: string, r: string)
    requires NoNewline(p)
    ensures Split(p + r) == [p + Split(r)[0]] + Split(r)[1..]
  {
    if p == [] {
      var sr := Split(r);
      assert p + r == r && p + sr[0] == sr[0];
      assert sr == [sr[0]] + sr[1..];
    } else {
      var t := p[1..] + r;
      assert p + r == [p[0]] + t;
      assert (p + r)[0] == p[0] && (p + r)[1..] == t;
      SplitPrefix(p[1..], r);
      var sr := Split(r);
      var st := Split(t);
      assert st == [p[1..] + sr[0]] + sr[1..];
      assert Split(p + r) == [[p[0]] + st[0]] + st[1..];
      assert st[1..] == sr[1..];
      AppendAssoc([p[0]], p[1..], sr[0]);
      assert [p[0]] + p[1..] == p;
    }
  }

  lemma SplitNewline(r: string)
    ensures Split("\n" + r) == [""] + Split(r)
  {
    assert ("\n" + r)[0] == '\n' && ("\n" + r)[1..] == r;
  }

  /** Split inverts Join on separator-free parts: the two are inverse. */
  lemma {:induction false} SplitJoin(parts: seq<string>)
    requires |parts| >= 1
    requires forall i :: 0 <= i < |parts| ==> NoNewline(parts[i])
    ensures Split(Join(parts)) == parts
  {
    if |parts| == 1 {
      SplitPrefix(parts[0], "");
      assert parts[0] + "" == parts[0];
    } else {
      var rest := Join(parts[1..]);
      SplitJoin(parts[1..]);
      JoinUnfold(parts);
      SplitPrefix(parts[0], "\n" + rest);
      SplitNewline(rest);
      var sn := Split("\n" + rest);
      assert sn[0] == "" && sn[1..] == parts[1..];
      assert parts[0] + "" == parts[0];
      assert parts == [parts[0]] + parts[1..];
    }
  }

  /**
   * Separator-free lines and a separator-free rest are determined by the text
   * they write: they are that text's split.
   */
  lemma SplitOfTerminated(parts: seq<string>, last: string)
    requires forall i :: 0 <= i < |parts| ==> NoNewline(parts[i])
    requires NoNewline(last)
    ensures Split(Terminated(parts) + last) == parts + [last]
  {
    JoinLast(parts, last);
    var all := parts + [last];
    assert forall i :: 0 <= i < |all| ==> NoNewline(all[i]);
    SplitJoin(all);
  }

  /** The characters `str.isspace()` accepts (Unicode White_Space and the ASCII separators). */
  predicate IsSpace(c: char) {
    || '\t' <= c <= '\r'
    || '\U{1C}' <= c <= ' '
    || c == '\U{85}' || c == '\U{A0}' || c == '\U{1680}'
    || '\U{2000}' <= c <= '\U{200A}'
    || c == '\U{2028}' || c == '\U{2029}' || c == '\U{202F}' || c == '\U{205F}' || c == '\U{3000}'
  }

  /** The number of whitespace characters `s.lstrip()` removes. */
  function LeadingSpaces(s: string): (n: nat)
    ensures n <= |s|
    ensures forall i :: 0 <= i < n ==> IsSpace(s[i])
    ensures n == |s| || !IsSpace(s[n])
  {
    if s == [] || !IsSpace(s[0]) then 0
    else
      var m := LeadingSpaces(s[1..]);
      assert forall i :: 0 < i < m + 1 ==> s[i] == s[1..][i - 1];
      m + 1
  }

  /** The number of whitespace characters `s.rstrip()` removes. */
  function TrailingSpaces(s: string): (n: nat)
    ensures n <= |s|
    ensures forall i :: |s| - n <= i < |s| ==> IsSpace(s[i])
    ensures n == |s| || !IsSpace(s[|s| - n - 1])
  {
    if s == [] || !IsSpace(s[|s| - 1]) then 0
    else
      var t := s[..|s| - 1];
      var m := TrailingSpaces(t);
      assert forall i :: |t| - m <= i < |t| ==> s[i] == t[i];
      m + 1
  }

  /**
   * `s.strip()`: the text between the leading and the trailing whitespace,
   * which neither starts nor ends with whitespace (StripIsSlice: it is what
   * is left of `s`).
   */
  function Strip(s: string): (r: string)
    ensures |r| <= |s|
    ensures r == [] || (!IsSpace(r[0]) && !IsSpace(r[|r| - 1]))
  {
    var t := s[LeadingSpaces(s)..];
    t[..|t| - TrailingSpaces(t)]
  }

  /** Strip removes a run of whitespace from each end of `s` and keeps what lies between. */
  lemma StripIsSlice(s: string) returns (i: nat)
    ensures i + |Strip(s)| <= |s|
    ensures forall k :: 0 <= k < i ==> IsSpace(s[k])
    ensures forall k :: 0 <= k < |Strip(s)| ==> Strip(s)[k] == s[i + k]
    ensures forall k :: i + |Strip(s)| <= k < |s| ==> IsSpace(s[k])
  {
    i := LeadingSpaces(s);
    var t := s[i..];
    var n := TrailingSpaces(t);
    assert forall k :: |t| - n <= k < |t| ==> IsSpace(t[k]);
    assert forall k :: i + |t| - n <= k < |s| ==> s[k] == t[k - i];
  }

  /** Stripping keeps every character it does not remove, so it adds no separator. */
  lemma StripKeepsNoNewline(s: string)
    requires NoNewline(s)
    ensures NoNewline(Strip(s))
  {
    var i := StripIsSlice(s);
    var r := Strip(s);
    assert forall k :: 0 <= k < |r| ==> r[k] in s;
  }

  /** Stripping twice is stripping once. */
  lemma StripIdempotent(s: string)
    ensures Strip(Strip(s)) == Strip(s)
  {
    var r := Strip(s);
    assert LeadingSpaces(r) == 0;
    assert r[0..] == r;
    assert TrailingSpaces(r) == 0;
  }

  /** `f` applied to every element, in order. */
  function Map<A, B>(f: A -> B, xs: seq<A>): (r: seq<B>)
    ensures |r| == |xs|
  {
    if xs == [] then [] else [f(xs[0])] + Map(f, xs[1..])
  }

  /** Element `i` of the result is `f` of element `i`. */
  lemma {:induction false} MapAt<A, B>(f: A -> B, xs: seq<A>, i: nat)
    requires i < |xs|
    ensures Map(f, xs)[i] == f(xs[i])
  {
    if i > 0 {
      MapAt(f, xs[1..], i - 1);
    }
  }

  lemma {:induction false} MapAppend<A, B>(f: A -> B, xs: seq<A>, ys: seq<A>)
    ensures Map(f, xs + ys) == Map(f, xs) + Map(f, ys)
  {
    if xs == [] {
      assert xs + ys == ys;
    } else {
      assert (xs + ys)[1..] == xs[1..] + ys;
      MapAppend(f, xs[1..], ys);
      AppendAssoc([f(xs[0])], Map(f, xs[1..]), Map(f, ys));
    }
  }

  lemma MapSnoc<A, B>(f: A -> B, xs: seq<A>, x: A)
    ensures Map(f, xs + [x]) == Map(f, xs) + [f(x)]
  {
    MapAppend(f, xs, [x]);
    assert [x][1..] == [];
  }

  predicate IsPrefix(p: string, s: string) {
    |p| <= |s| && s[..|p|] == p
  }

  /** `needle in hay`: some position of `hay` starts with `needle`. */
  function Contains(hay: string, needle: string): (b: bool)
    ensures b <==> exists i :: 0 <= i <= |hay| && IsPrefix(needle, hay[i..])
  {
    if IsPrefix(needle, hay) then
      assert hay[0..] == hay;
      true
    else if hay == [] then
      false
    else
      var b := Contains(hay[1..], needle);
      assert forall i :: 1 <= i <= |hay| ==> hay[i..] == hay[1..][i - 1..];
      assert b ==> exists i :: 0 <= i <= |hay| && IsPrefix(needle, hay[i..]) by {
        if b {
          var j :| 0 <= j <= |hay| - 1 && IsPrefix(needle, hay[1..][j..]);
          assert hay[j + 1..] == hay[1..][j..];
        }
      }
      b
  }
}
