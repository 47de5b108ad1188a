/** The pieces of Python's `str` behaviour the script relies on: `join`,
    `split`, substring search, `splitlines`, `strip`, and the ordering that
    `sorted` uses on strings. */
module Text {

  // ---------------------------------------------------------------------
  // join and split
  // ---------------------------------------------------------------------

  /** Python's `sep.join(parts)`. */
  function Join(sep: string, parts: seq<string>): string
    decreases |parts|
  {
    if |parts| == 0 then ""
    else if |parts| == 1 then parts[0]
    else parts[0] + sep + Join(sep, parts[1..])
  }

  /** Python's `s.split(c)` for a single separator character: the pieces
      between consecutive occurrences of `c`; never empty. */
  function SplitOn(c: char, s: string): (parts: seq<string>)
    ensures |parts| >= 1
    decreases |s|
  {
    if |s| == 0 then [""]
    else
      var rest := SplitOn(c, s[1..]);
      if s[0] == c then [""] + rest
      else [[s[0]] + rest[0]] + rest[1..]
  }

  /** Number of occurrences of `c` in `s`. */
  function Count(c: char, s: string): nat
    decreases |s|
  {
    if |s| == 0 then 0
    else (if s[0] == c then 1 else 0) + Count(c, s[1..])
  }

  lemma {:induction false} SplitOnFree(c: char, s: string)
    requires c !in s
    ensures SplitOn(c, s) == [s]
    decreases |s|
  {
    if |s| > 0 {
      SplitOnFree(c, s[1..]);
      assert [s[0]] + s[1..] == s;
    }
  }

  lemma {:induction false} SplitOnAppend(c: char, a: string, b: string)
    requires c !in a
    ensures SplitOn(c, a + [c] + b) == [a] + SplitOn(c, b)
    decreases |a|
  {
    var s := a + [c] + b;
    if |a| == 0 {
      assert s == [c] + b;
      assert s[1..] == b;
    } else {
      assert s[0] == a[0];
      assert s[1..] == a[1..] + [c] + b;
      SplitOnAppend(c, a[1..], b);
      assert [a[0]] + a[1..] == a;
    }
  }

  /** Splitting a joined list at the separator gives the list back, as long
      as no piece contains the separator. */
  lemma {:induction false} SplitJoin(c: char, parts: seq<string>)
    requires |parts| >= 1
    requires forall i :: 0 <= i < |parts| ==> c !in parts[i]
    ensures SplitOn(c, Join([c], parts)) == parts
    decreases |parts|
  {
    if |parts| == 1 {
      SplitOnFree(c, parts[0]);
    } else {
      SplitJoin(c, parts[1..]);
      SplitOnAppend(c, parts[0], Join([c], parts[1..]));
      assert [parts[0]] + parts[1..] == parts;
    }
  }

  lemma {:induction false} CountAppend(c: char, a: string, b: string)
    ensures Count(c, a + b) == Count(c, a) + Count(c, b)
    decreases |a|
  {
    if |a| > 0 {
      assert (a + b)[1..] == a[1..] + b;
      CountAppend(c, a[1..], b);
    } else {
      assert a + b == b;
    }
  }

  lemma {:induction false} CountFree(c: char, s: string)
    requires c !in s
    ensures Count(c, s) == 0
    decreases |s|
  {
    if |s| > 0 {
      CountFree(c, s[1..]);
    }
  }

  /** A join of `n` separator-free pieces holds exactly `n - 1` separators. */
  lemma {:induction false} CountJoin(c: char, parts: seq<string>)
    requires |parts| >= 1
    requires forall i :: 0 <= i < |parts| ==> c !in parts[i]
    ensures Count(c, Join([c], parts)) == |parts| - 1
    decreases |parts|
  {
    CountFree(c, parts[0]);
    if |parts| > 1 {
      CountJoin(c, parts[1..]);
      CountAppend(c, parts[0] + [c], Join([c], parts[1..]));
      CountAppend(c, parts[0], [c]);
    }
  }

  // ---------------------------------------------------------------------
  // substring search
  // ---------------------------------------------------------------------

  /** `t` occurs in `s` starting at index `i`. */
  ghost predicate OccursAt(s: string, t: string, i: int)
  {
    0 <= i && i + |t| <= |s| && s[i..i + |t|] == t
  }

  ghost predicate Occurs(s: string, t: string)
  {
    exists i :: OccursAt(s, t, i)
  }

  /** A search for the literal text `t` in `s`, as `re.search` does with a
      pattern that has no special characters. */
  function Contains(s: string, t: string): bool
    decreases |s|
  {
    if t <= s then true
    else if |s| == 0 then false
    else Contains(s[1..], t)
  }

  lemma {:induction false} ContainsIff(s: string, t: string)
    ensures Contains(s, t) <==> Occurs(s, t)
    decreases |s|
  {
    if t <= s {
      assert OccursAt(s, t, 0);
    } else if |s| == 0 {
      assert |t| > 0;
    } else {
      ContainsIff(s[1..], t);
      if Occurs(s, t) {
        var i :| OccursAt(s, t, i);
        assert OccursAt(s, t, 0) ==> t <= s;
        assert s[1..][i - 1..i - 1 + |t|] == s[i..i + |t|];
        assert OccursAt(s[1..], t, i - 1);
      }
      if Occurs(s[1..], t) {
        var j :| OccursAt(s[1..], t, j);
        assert s[1..][j..j + |t|] == s[j + 1..j + 1 + |t|];
        assert OccursAt(s, t, j + 1);
      }
    }
  }

  // ---------------------------------------------------------------------
  // lines and whitespace
  // ---------------------------------------------------------------------

  /** The characters at which Python's `str.splitlines` breaks a line. */
  predicate IsLineBreak(c: char)
  {
    || c == '\n' || c == '\r' || c == '\U{B}' || c == '\U{C}'
    || c == '\U{1C}' || c == '\U{1D}' || c == '\U{1E}'
    || c == '\U{85}' || c == '\U{2028}' || c == '\U{2029}'
  }

  /** The characters Python's `str.isspace` accepts, which `str.strip`
      removes. */
  predicate IsSpace(c: char)
  {
    || IsLineBreak(c)
    || c == '\t' || c == ' ' || c == '\U{1F}' || c == '\U{A0}' || c == '\U{1680}'
    || ('\U{2000}' <= c <= '\U{200A}')
    || c == '\U{202F}' || c == '\U{205F}' || c == '\U{3000}'
  }

  predicate NoLineBreak(s: string)
  {
    forall k :: 0 <= k < |s| ==> !IsLineBreak(s[k])
  }

  /** Printable ASCII text holds no line break. */
  lemma PrintableNoLineBreak(s: string)
    requires forall k :: 0 <= k < |s| ==> ' ' <= s[k] <= '~'
    ensures NoLineBreak(s)
  {
  }

  lemma NoLineBreakAppend(a: string, b: string)
    requires NoLineBreak(a) && NoLineBreak(b)
    ensures NoLineBreak(a + b)
  {
    forall k | 0 <= k < |a + b|
      ensures !IsLineBreak((a + b)[k])
    {
      if k >= |a| {
        assert (a + b)[k] == b[k - |a|];
      }
    }
  }

  lemma LinesNoBreakAppend(a: seq<string>, b: seq<string>)
    requires forall i :: 0 <= i < |a| ==> NoLineBreak(a[i])
    requires forall i :: 0 <= i < |b| ==> NoLineBreak(b[i])
    ensures forall i :: 0 <= i < |a + b| ==> NoLineBreak((a + b)[i])
  {
    forall i | 0 <= i < |a + b|
      ensures NoLineBreak((a + b)[i])
    {
      if i >= |a| {
        assert (a + b)[i] == b[i - |a|];
      }
    }
  }

  /** Index of the first line break in `s`, or `|s|` when there is none. */
  function LineEnd(s: string): (n: nat)
    ensures n <= |s|
    ensures NoLineBreak(s[..n])
    ensures n < |s| ==> IsLineBreak(s[n])
    decreases |s|
  {
    if |s| == 0 || IsLineBreak(s[0]) then 0
    else
      var n := 1 + LineEnd(s[1..]);
      assert s[..n] == [s[0]] + s[1..][..n - 1];
      n
  }

  /** Python's `s.splitlines()`: "\r\n" counts as one break, and a final
      break does not start an empty line. */
  function SplitLines(s: string): (lines: seq<string>)
    ensures forall i :: 0 <= i < |lines| ==> NoLineBreak(lines[i])
    decreases |s|
  {
    if |s| == 0 then []
    else
      var n := LineEnd(s);
      if n == |s| then
        assert s[..n] == s;
        [s]
      else
        var width := if s[n] == '\r' && n + 1 < |s| && s[n + 1] == '\n' then 2 else 1;
        [s[..n]] + SplitLines(s[n + width..])
  }

  /** Every line followed by "\n": the text of a line list as a file holds it. */
  function Terminated(lines: seq<string>): string
    decreases |lines|
  {
    if |lines| == 0 then ""
    else lines[0] + "\n" + Terminated(lines[1..])
  }

  lemma {:induction false} LineEndAt(a: string, b: string)
    requires NoLineBreak(a)
    requires |b| > 0 && IsLineBreak(b[0])
    ensures LineEnd(a + b) == |a|
    decreases |a|
  {
    if |a| > 0 {
      assert (a + b)[1..] == a[1..] + b;
      LineEndAt(a[1..], b);
    } else {
      assert a + b == b;
    }
  }

  /** `splitlines` undoes `Terminated` when no line holds a break. */
  lemma {:induction false} SplitTerminated(lines: seq<string>)
    requires forall i :: 0 <= i < |lines| ==> NoLineBreak(lines[i])
    ensures SplitLines(Terminated(lines)) == lines
    decreases |lines|
  {
    if |lines| > 0 {
      var l := lines[0];
      var rest := Terminated(lines[1..]);
      var s := Terminated(lines);
      assert s == l + ("\n" + rest);
      LineEndAt(l, "\n" + rest);
      assert s[|l|] == '\n';
      assert s[..|l|] == l;
      assert s[|l| + 1..] == rest;
      SplitTerminated(lines[1..]);
      assert [l] + lines[1..] == lines;
    }
  }

  lemma {:induction false} TerminatedAppend(a: seq<string>, b: seq<string>)
    ensures Terminated(a + b) == Terminated(a) + Terminated(b)
    decreases |a|
  {
    if |a| == 0 {
      assert a + b == b;
    } else {
      assert (a + b)[1..] == a[1..] + b;
      TerminatedAppend(a[1..], b);
    }
  }

  /** A "\n"-join followed by one more "\n" terminates every line. */
  lemma {:induction false} JoinTerminated(lines: seq<string>)
    requires |lines| >= 1
    ensures Join("\n", lines) + "\n" == Terminated(lines)
    decreases |lines|
  {
    if |lines| > 1 {
      JoinTerminated(lines[1..]);
    }
  }

  function TrimLeft(s: string): string
    decreases |s|
  {
    if |s| > 0 && IsSpace(s[0]) then TrimLeft(s[1..]) else s
  }

  function TrimRight(s: string): string
    decreases |s|
  {
    if |s| > 0 && IsSpace(s[|s| - 1]) then TrimRight(s[..|s| - 1]) else s
  }

  /** Python's `s.strip()` with no argument. */
  function Strip(s: string): string
  {
    TrimRight(TrimLeft(s))
  }

  // ---------------------------------------------------------------------
  // ordering and sorting
  // ---------------------------------------------------------------------

  /** Python's `a <= b` on `str`: lexicographic on code points, a proper
      prefix first. */
  predicate StrLe(a: string, b: string)
    decreases |a|
  {
    |a| == 0 || (|b| > 0 && (a[0] < b[0] || (a[0] == b[0] && StrLe(a[1..], b[1..]))))
  }

  predicate StrLt(a: string, b: string)
  {
    StrLe(a, b) && a != b
  }

  lemma {:induction false} StrLeAntisymmetric(a: string, b: string)
    requires StrLe(a, b) && StrLe(b, a)
    ensures a == b
    decreases |a|
  {
    if |a| > 0 {
      StrLeAntisymmetric(a[1..], b[1..]);
      assert a == [a[0]] + a[1..] && b == [b[0]] + b[1..];
    }
  }

  lemma {:induction false} StrLeTransitive(a: string, b: string, c: string)
    requires StrLe(a, b) && StrLe(b, c)
    ensures StrLe(a, c)
    decreases |a|
  {
    if |a| > 0 && a[0] == b[0] && b[0] == c[0] {
      StrLeTransitive(a[1..], b[1..], c[1..]);
    }
  }

  lemma {:induction false} StrLeTotal(a: string, b: string)
    ensures StrLe(a, b) || StrLe(b, a)
    decreases |a|
  {
    if |a| > 0 && |b| > 0 && a[0] == b[0] {
      StrLeTotal(a[1..], b[1..]);
    }
  }

  predicate IsLeast(m: string, s: set<string>)
  {
    m in s && forall y :: y in s ==> StrLe(m, y)
  }

  lemma {:induction false} LeastExists(s: set<string>)
    requires s != {}
    ensures exists m :: IsLeast(m, s)
    decreases |s|
  {
    var x :| x in s;
    if s == {x} {
      StrLeTotal(x, x);
      assert IsLeast(x, s);
    } else {
      LeastExists(s - {x});
      var m :| IsLeast(m, s - {x});
      StrLeTotal(m, x);
      if StrLe(m, x) {
        assert IsLeast(m, s);
      } else {
        forall y | y in s
          ensures StrLe(x, y)
        {
          if y != x {
            StrLeTransitive(x, m, y);
          } else {
            StrLeTotal(x, x);
          }
        }
        assert IsLeast(x, s);
      }
    }
  }

  lemma LeastUnique(s: set<string>)
    ensures forall m, m' :: IsLeast(m, s) && IsLeast(m', s) ==> m == m'
  {
    forall m, m' | IsLeast(m, s) && IsLeast(m', s)
      ensures m == m'
    {
      StrLeAntisymmetric(m, m');
    }
  }

  predicate StrictlyAscending(xs: seq<string>)
  {
    forall i, j :: 0 <= i < j < |xs| ==> StrLt(xs[i], xs[j])
  }

  /** Python's `sorted(s)` for a set of strings: the elements of `s`, each
      once, in ascending order. */
  function SortSet(s: set<string>): (r: seq<string>)
    ensures StrictlyAscending(r)
    ensures forall x :: x in r <==> x in s
    ensures |r| == |s|
    decreases |s|
  {
    if s == {} then []
    else
      LeastExists(s);
      LeastUnique(s);
      var m :| IsLeast(m, s);
      var rest := SortSet(s - {m});
      assert forall x :: x in rest ==> StrLt(m, x);
      [m] + rest
  }

  lemma AscendingHeadIsLeast(s: set<string>, xs: seq<string>)
    requires StrictlyAscending(xs) && |xs| > 0
    requires forall x :: x in xs <==> x in s
    ensures IsLeast(xs[0], s)
  {
    forall y | y in s
      ensures StrLe(xs[0], y)
    {
      var j :| 0 <= j < |xs| && xs[j] == y;
      if j > 0 {
        assert StrLt(xs[0], xs[j]);
      } else {
        StrLeTotal(y, y);
      }
    }
  }

  lemma AscendingTail(s: set<string>, xs: seq<string>)
    requires StrictlyAscending(xs) && |xs| > 0
    requires forall x :: x in xs <==> x in s
    ensures StrictlyAscending(xs[1..])
    ensures forall x :: x in xs[1..] <==> x in s - {xs[0]}
  {
    var tail := xs[1..];
    forall x
      ensures x in tail <==> x in s - {xs[0]}
    {
      if x in tail {
        var j :| 0 <= j < |tail| && tail[j] == x;
        assert StrLt(xs[0], xs[j + 1]);
      }
      if x in s - {xs[0]} {
        var j :| 0 <= j < |xs| && xs[j] == x;
        assert j != 0;
        assert tail[j - 1] == x;
      }
    }
  }

  /** There is only one ascending listing of a set: any strictly ascending
      sequence with the elements of `s` is `SortSet(s)`. */
  lemma {:induction false} SortSetUnique(s: set<string>, xs: seq<string>)
    requires StrictlyAscending(xs)
    requires forall x :: x in xs <==> x in s
    ensures xs == SortSet(s)
    decreases |s|
  {
    var r := SortSet(s);
    if |xs| == 0 {
      assert s == {};
    } else {
      assert xs[0] in s;
      AscendingHeadIsLeast(s, xs);
      AscendingHeadIsLeast(s, r);
      LeastUnique(s);
      var m := xs[0];
      assert r[0] == m;
      AscendingTail(s, xs);
      AscendingTail(s, r);
      SortSetUnique(s - {m}, xs[1..]);
      SortSetUnique(s - {m}, r[1..]);
      assert xs == [m] + xs[1..] && r == [m] + r[1..];
    }
  }
}
