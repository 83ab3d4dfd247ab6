/**
 * The Foundation string and path operations the reader relies on:
 * `components(separatedBy:)`, `hasSuffix`, `NSString.lastPathComponent`,
 * `URL.appendingPathComponent` and the decimal rendering of an `Int` in
 * string interpolation. Strings are sequences of characters.
 */
module Text {

  /** Glues `parts` back together, putting `c` between neighbours. */
  function JoinWith(parts: seq<string>, c: char): string
    requires |parts| >= 1
    decreases |parts|
  {
    if |parts| == 1 then parts[0] else parts[0] + [c] + JoinWith(parts[1..], c)
  }

  /**
   * `s.components(separatedBy: c)`: the pieces of `s` between occurrences
   * of `c`. There is always at least one piece, no piece contains `c`, and
   * there is more than one piece exactly when `c` occurs in `s`.
   */
  function Split(s: string, c: char): (r: seq<string>)
    ensures |r| >= 1
    ensures forall i :: 0 <= i < |r| ==> c !in r[i]
    ensures |r| == 1 <==> c !in s
    decreases |s|
  {
    if |s| == 0 then [""]
    else
      var rest := Split(s[1..], c);
      if s[0] == c then
        assert ([""] + rest)[1..] == rest;
        [""] + rest
      else
        var r := [[s[0]] + rest[0]] + rest[1..];
        assert r[1..] == rest[1..];
        r
  }

  /** Joining the pieces with `c` gives back the string. */
  lemma {:induction false} SplitJoin(s: string, c: char)
    ensures JoinWith(Split(s, c), c) == s
    decreases |s|
  {
    if |s| > 0 {
      var rest := Split(s[1..], c);
      SplitJoin(s[1..], c);
      if s[0] == c {
        assert ([""] + rest)[1..] == rest;
      } else {
        var r := [[s[0]] + rest[0]] + rest[1..];
        assert r[1..] == rest[1..];
        assert s == [s[0]] + s[1..];
      }
    }
  }

  /** A string without `c` is a single piece. */
  lemma SplitWithout(s: string, c: char)
    requires c !in s
    ensures Split(s, c) == [s]
  {
    SplitJoin(s, c);
    var r := Split(s, c);
    assert JoinWith(r, c) == r[0];
  }

  /** Splitting at the first `c`: the text before it is the first piece. */
  lemma {:induction false} SplitAtFirst(a: string, c: char, b: string)
    requires c !in a
    ensures Split(a + [c] + b, c) == [a] + Split(b, c)
    decreases |a|
  {
    var s := a + [c] + b;
    if |a| == 0 {
      assert s[1..] == b;
    } else {
      assert s[1..] == a[1..] + [c] + b;
      SplitAtFirst(a[1..], c, b);
      assert [a[0]] + a[1..] == a;
    }
  }

  /** The text of `s` before the first `c` (all of `s` when there is none). */
  lemma {:induction false} SplitFirst(s: string, c: char)
    ensures var head := Split(s, c)[0];
      && |head| <= |s| && head == s[..|head|] && c !in head
      && (|head| < |s| ==> s[|head|] == c)
      && (|head| == |s| <==> c !in s)
  {
    var r := Split(s, c);
    SplitJoin(s, c);
    if |r| > 1 {
      assert s == r[0] + [c] + JoinWith(r[1..], c);
      assert s[|r[0]|] == c;
    }
  }

  /** The text of `s` after the last `c` (all of `s` when there is none). */
  lemma {:induction false} SplitLast(s: string, c: char)
    ensures var r := Split(s, c); var tail := r[|r| - 1];
      && |tail| <= |s| && tail == s[|s| - |tail|..] && c !in tail
      && (|r| > 1 ==> |tail| < |s| && s[|s| - |tail| - 1] == c)
  {
    var r := Split(s, c);
    assert c !in r[|r| - 1];
    SplitJoin(s, c);
    LastPieceEndsJoin(r, c, s);
  }

  lemma LastPieceEndsJoin(parts: seq<string>, c: char, s: string)
    requires |parts| >= 1 && JoinWith(parts, c) == s
    ensures var tail := parts[|parts| - 1];
      && |tail| <= |s| && tail == s[|s| - |tail|..]
      && (|parts| > 1 ==> |tail| < |s| && s[|s| - |tail| - 1] == c)
  {
    JoinEndsWithLast(parts, c);
  }

  lemma {:induction false} JoinEndsWithLast(parts: seq<string>, c: char)
    requires |parts| >= 1
    ensures var j := JoinWith(parts, c); var tail := parts[|parts| - 1];
      && |tail| <= |j| && j[|j| - |tail|..] == tail
      && (|parts| > 1 ==> |tail| < |j| && j[|j| - |tail| - 1] == c)
    decreases |parts|
  {
    if |parts| > 1 {
      JoinEndsWithLast(parts[1..], c);
      var rest := JoinWith(parts[1..], c);
      assert JoinWith(parts, c) == (parts[0] + [c]) + rest;
    }
  }

  /**
   * `s.hasSuffix(t)`: `s` is some prefix followed by `t`. Every string has
   * the empty suffix, and a suffix as long as `s` is `s` itself.
   */
  function HasSuffix(s: string, t: string): (b: bool)
    ensures b ==> |t| <= |s|
    ensures t == [] ==> b
    ensures b && |t| == |s| ==> s == t
  {
    |t| <= |s| && s[|s| - |t|..] == t
  }

  /** A string ends with whatever it was built to end with. */
  lemma SuffixOfAppend(u: string, t: string)
    ensures HasSuffix(u + t, t)
  {
    assert (u + t)[|u|..] == t;
  }

  /** The converse: a string with suffix `t` is the rest of it followed by `t`. */
  lemma SuffixSplits(s: string, t: string)
    requires HasSuffix(s, t)
    ensures s == s[..|s| - |t|] + t
  {
  }

  /** `s` with every trailing `/` removed. */
  function TrimTrailingSlashes(s: string): (r: string)
    ensures |r| <= |s| && r == s[..|r|]
    ensures r == [] || r[|r| - 1] != '/'
    ensures forall i :: |r| <= i < |s| ==> s[i] == '/'
    decreases |s|
  {
    if |s| > 0 && s[|s| - 1] == '/' then TrimTrailingSlashes(s[..|s| - 1]) else s
  }

  /**
   * `NSString.lastPathComponent`: trailing slashes are ignored, and the
   * result is the text after the last remaining `/`; a path made only of
   * slashes gives "/" and the empty path gives "".
   */
  function LastPathComponent(p: string): (r: string)
    ensures p == [] ==> r == []
    ensures p != [] && TrimTrailingSlashes(p) == [] ==> r == "/"
  {
    var t := TrimTrailingSlashes(p);
    if t == [] then (if p == [] then "" else "/")
    else var parts := Split(t, '/'); parts[|parts| - 1]
  }

  /** A path without `/` is its own last component. */
  lemma LastPathComponentOfName(p: string)
    requires '/' !in p
    ensures LastPathComponent(p) == p
  {
    if p != [] {
      SplitWithout(p, '/');
    }
  }

  /** The last component has no slash and ends the path, once trailing slashes are dropped. */
  lemma {:induction false} LastPathComponentIsSuffix(p: string)
    requires TrimTrailingSlashes(p) != []
    ensures '/' !in LastPathComponent(p)
    ensures HasSuffix(TrimTrailingSlashes(p), LastPathComponent(p))
    ensures LastPathComponent(p) != []
    ensures var t, r := TrimTrailingSlashes(p), LastPathComponent(p);
      |r| < |t| ==> t[|t| - |r| - 1] == '/'
  {
    var t := TrimTrailingSlashes(p);
    var parts := Split(t, '/');
    var r := parts[|parts| - 1];
    assert LastPathComponent(p) == r;
    SplitLast(t, '/');
    if |parts| == 1 {
      SplitWithout(t, '/');
    } else {
      assert t[|t| - 1] != '/';
    }
    assert t[|t| - |r|..] == r;
  }

  /** `URL.appendingPathComponent`: one `/` between the base and the component. */
  function AppendPath(base: string, component: string): (r: string)
    ensures HasSuffix(r, component)
    ensures |base| <= |r| && r[..|base|] == base
    ensures |base| + |component| <= |r| <= |base| + |component| + 1
    ensures |r| == |base| + |component| + 1 ==> r[|base|] == '/'
    ensures (|base| > 0 && base[|base| - 1] == '/') <==> |r| == |base| + |component|
  {
    if |base| > 0 && base[|base| - 1] == '/' then base + component else base + "/" + component
  }

  // Decimal digits, as `"\(n)"` renders a non-negative Int.

  function Digit(d: nat): (ch: char)
    requires d < 10
    ensures '0' <= ch <= '9'
  {
    "0123456789"[d]
  }

  function DigitValue(ch: char): (d: nat)
    ensures d < 10
  {
    if '0' <= ch <= '9' then (ch as int - '0' as int) else 0
  }

  /** The decimal numeral of `n`, with no leading zeros. */
  function Decimal(n: nat): (s: string)
    ensures |s| >= 1
    ensures forall i :: 0 <= i < |s| ==> '0' <= s[i] <= '9'
    ensures |s| > 1 ==> s[0] != '0'
    decreases n
  {
    if n < 10 then [Digit(n)] else Decimal(n / 10) + [Digit(n % 10)]
  }

  /** Reading a string of digits as a number. */
  function DecimalValue(s: string): nat
    decreases |s|
  {
    if |s| == 0 then 0 else 10 * DecimalValue(s[..|s| - 1]) + DigitValue(s[|s| - 1])
  }

  lemma DigitRoundTrip(d: nat)
    requires d < 10
    ensures DigitValue(Digit(d)) == d
  {
  }

  /** Reading back the numeral gives the number: distinct numbers never share a numeral. */
  lemma {:induction false} DecimalRoundTrip(n: nat)
    ensures DecimalValue(Decimal(n)) == n
    decreases n
  {
    if n < 10 {
      DigitRoundTrip(n);
    } else {
      var s := Decimal(n);
      assert s[..|s| - 1] == Decimal(n / 10);
      DecimalRoundTrip(n / 10);
      DigitRoundTrip(n % 10);
    }
  }
}
