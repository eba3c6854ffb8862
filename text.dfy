/** The Python string operations the program relies on: `str.isspace`,
    `strip`/`rstrip`, `split`, substring `in` and the decimal rendering of an
    `int` inside an f-string. Each is given by its meaning in its contract. */
module Text {

  /** The characters for which Python's `str.isspace()` holds; these are also
      the characters the regular-expression class `\s` matches on `str`. */
  predicate IsSpace(c: char) {
    var n := c as int;
    (9 <= n <= 13) || (28 <= n <= 32) || n == 0x85 || n == 0xA0 || n == 0x1680
    || (0x2000 <= n <= 0x200A) || n == 0x2028 || n == 0x2029 || n == 0x202F
    || n == 0x205F || n == 0x3000
  }

  predicate IsSlash(c: char) { c == '/' }

  /** Where the run of trailing characters that `drop` selects begins in
      `s[..n]`. */
  function TrailingStart(s: string, drop: char -> bool, n: nat): (k: nat)
    requires n <= |s|
    ensures k <= n
    ensures forall i :: k <= i < n ==> drop(s[i])
    ensures k == 0 || !drop(s[k - 1])
    decreases n
  {
    if n > 0 && drop(s[n - 1]) then TrailingStart(s, drop, n - 1) else n
  }

  /** Where the run of leading characters that `drop` selects ends in
      `s[n..]`. */
  function LeadingEnd(s: string, drop: char -> bool, n: nat): (k: nat)
    requires n <= |s|
    ensures n <= k <= |s|
    ensures forall i :: n <= i < k ==> drop(s[i])
    ensures k == |s| || !drop(s[k])
    decreases |s| - n
  {
    if n < |s| && drop(s[n]) then LeadingEnd(s, drop, n + 1) else n
  }

  /** Python's `s.rstrip(chars)`: the longest prefix of `s` obtained by removing
      trailing characters that `drop` selects. */
  function RStrip(s: string, drop: char -> bool): (r: string)
    ensures r <= s
    ensures forall i :: |r| <= i < |s| ==> drop(s[i])
    ensures r == [] || !drop(r[|r| - 1])
  {
    s[..TrailingStart(s, drop, |s|)]
  }

  /** RStrip is determined by its contract. */
  lemma RStripUnique(s: string, drop: char -> bool, r: string)
    requires r <= s && (forall i :: |r| <= i < |s| ==> drop(s[i]))
    requires r == [] || !drop(r[|r| - 1])
    ensures RStrip(s, drop) == r
  {
    var q := RStrip(s, drop);
    if |r| > 0 {
      assert r[|r| - 1] == s[|r| - 1];
    }
    if |q| > 0 {
      assert q[|q| - 1] == s[|q| - 1];
    }
    assert |q| == |r|;
    assert q == s[..|q|] && r == s[..|r|];
  }

  /** A trailing character that `drop` selects makes no difference to RStrip. */
  lemma RStripLast(s: string, drop: char -> bool)
    requires s != [] && drop(s[|s| - 1])
    ensures RStrip(s, drop) == RStrip(s[..|s| - 1], drop)
  {
    var t := s[..|s| - 1];
    var r := RStrip(t, drop);
    forall i | |r| <= i < |s| ensures drop(s[i]) {
      if i < |t| { assert s[i] == t[i]; }
    }
    RStripUnique(s, drop, r);
  }

  /** Python's `s.lstrip(chars)`: the longest suffix of `s` obtained by removing
      leading characters that `drop` selects. */
  function LStrip(s: string, drop: char -> bool): (r: string)
    ensures |r| <= |s| && r == s[|s| - |r|..]
    ensures forall i :: 0 <= i < |s| - |r| ==> drop(s[i])
    ensures r == [] || !drop(r[0])
  {
    s[LeadingEnd(s, drop, 0)..]
  }

  /** Python's `s.strip()`: `s` without its leading and trailing whitespace
      (StripSpec says what is removed). */
  function Strip(s: string): (r: string)
    ensures r == [] || (!IsSpace(r[0]) && !IsSpace(r[|r| - 1]))
  {
    RStrip(LStrip(s, IsSpace), IsSpace)
  }

  /** The result of Strip is a contiguous slice of `s`, everything outside
      the slice is whitespace, and (by Strip's contract) the slice neither
      starts nor ends with whitespace. */
  lemma StripSpec(s: string)
    ensures exists a :: TrimmedAt(s, Strip(s), a, IsSpace)
  {
    TrimBoth(s, IsSpace);
    var a := |s| - |LStrip(s, IsSpace)|;
    assert TrimmedAt(s, Strip(s), a, IsSpace);
  }

  /** Removing leading and then trailing characters leaves a slice with only
      removed characters around it. */
  lemma TrimBoth(s: string, drop: char -> bool)
    ensures TrimmedAt(s, RStrip(LStrip(s, drop), drop), |s| - |LStrip(s, drop)|, drop)
  {
    var l := LStrip(s, drop);
    var a := |s| - |l|;
    var r := RStrip(l, drop);
    assert r == s[a..a + |r|] by {
      assert r == l[..|r|];
      assert s[a..a + |r|] == l[..|r|];
    }
    forall i | a + |r| <= i < |s| ensures drop(s[i]) {
      assert s[i] == l[i - a];
    }
  }

  /** `r` sits at offset `a` of `s` with only characters `drop` selects
      around it. */
  ghost predicate TrimmedAt(s: string, r: string, a: int, drop: char -> bool) {
    && 0 <= a <= |s| - |r|
    && r == s[a..a + |r|]
    && (forall i :: 0 <= i < a ==> drop(s[i]))
    && (forall i :: a + |r| <= i < |s| ==> drop(s[i]))
  }

  /** A text that neither starts nor ends with whitespace is its own strip. */
  lemma StripUnchanged(s: string)
    requires s == [] || (!IsSpace(s[0]) && !IsSpace(s[|s| - 1]))
    ensures Strip(s) == s
  {
    assert LStrip(s, IsSpace) == s;
  }

  /** Stripping twice is stripping once; the clone flow strips the terminal
      input and then the response text. */
  lemma StripIdempotent(s: string)
    ensures Strip(Strip(s)) == Strip(s)
  {
    var r := Strip(s);
    assert LStrip(r, IsSpace) == r;
    assert RStrip(r, IsSpace) == r;
  }

  /** Python's `s.split(sep)` for a one-character separator: the pieces between
      occurrences of `sep`; joining them back with `sep` gives `s` (SplitJoin). */
  function Split(s: string, sep: char): (parts: seq<string>)
    ensures |parts| >= 1
    ensures forall i :: 0 <= i < |parts| ==> sep !in parts[i]
    decreases |s|
  {
    if s == [] then [[]]
    else if s[0] == sep then [[]] + Split(s[1..], sep)
    else
      var rest := Split(s[1..], sep);
      [[s[0]] + rest[0]] + rest[1..]
  }

  /** Python's `sep.join(parts)`. */
  function JoinWith(parts: seq<string>, sep: char): string
    requires |parts| >= 1
    decreases |parts|
  {
    if |parts| == 1 then parts[0] else parts[0] + [sep] + JoinWith(parts[1..], sep)
  }

  lemma {:induction false} SplitJoin(s: string, sep: char)
    ensures JoinWith(Split(s, sep), sep) == s
    decreases |s|
  {
    if s != [] {
      SplitJoin(s[1..], sep);
      var rest := Split(s[1..], sep);
      if s[0] == sep {
        assert Split(s, sep)[1..] == rest;
      } else {
        JoinExtendFirst(s[0], rest, sep);
      }
      assert s == [s[0]] + s[1..];
    }
  }

  /** Prepending a character to the first piece prepends it to the join. */
  lemma JoinExtendFirst(c: char, parts: seq<string>, sep: char)
    requires |parts| >= 1
    ensures JoinWith([[c] + parts[0]] + parts[1..], sep) == [c] + JoinWith(parts, sep)
  {
    var q := [[c] + parts[0]] + parts[1..];
    if |parts| > 1 {
      assert q[1..] == parts[1..];
    }
  }

  /** The text after the last `sep` of `s`, or all of `s` when it has none:
      a suffix of `s` without `sep` that is either all of `s` or preceded by
      `sep`. LastPieceOfSplit shows it is Python's `s.split(sep)[-1]`. */
  function LastPiece(s: string, sep: char): (p: string)
    ensures sep !in p
    ensures |p| <= |s| && p == s[|s| - |p|..]
    ensures |p| == |s| || s[|s| - |p| - 1] == sep
    decreases |s|
  {
    if s == [] || s[|s| - 1] == sep then []
    else
      var init := s[..|s| - 1];
      var p := LastPiece(init, sep);
      assert s == init + [s[|s| - 1]];
      p + [s[|s| - 1]]
  }

  /** LastPiece is the last element of Split. */
  lemma LastPieceOfSplit(s: string, sep: char)
    ensures LastPiece(s, sep) == Split(s, sep)[|Split(s, sep)| - 1]
  {
    var parts := Split(s, sep);
    SplitJoin(s, sep);
    JoinLast(parts, sep);
    LastPieceUnique(s, sep, parts[|parts| - 1]);
  }

  /** The suffix characterised by LastPiece's contract is unique. */
  lemma {:induction false} LastPieceUnique(s: string, sep: char, p: string)
    requires sep !in p && |p| <= |s| && p == s[|s| - |p|..]
    requires |p| == |s| || s[|s| - |p| - 1] == sep
    ensures LastPiece(s, sep) == p
    decreases |s|
  {
    assert |p| > 0 ==> p[|p| - 1] == s[|s| - 1];
    if s != [] && s[|s| - 1] != sep {
      var init, q := s[..|s| - 1], p[..|p| - 1];
      assert q == init[|init| - |q|..];
      assert |q| == |init| || init[|init| - |q| - 1] == sep;
      LastPieceUnique(init, sep, q);
      assert p == q + [s[|s| - 1]];
    }
  }

  lemma {:induction false} JoinLast(parts: seq<string>, sep: char)
    requires |parts| >= 1
    ensures var j := JoinWith(parts, sep); var p := parts[|parts| - 1];
      |p| <= |j| && j[|j| - |p|..] == p && (|parts| > 1 ==> |p| < |j| && j[|j| - |p| - 1] == sep)
    decreases |parts|
  {
    if |parts| > 1 {
      JoinLast(parts[1..], sep);
      var tail := JoinWith(parts[1..], sep);
      var j := JoinWith(parts, sep);
      var p := parts[|parts| - 1];
      assert j == (parts[0] + [sep]) + tail;
      if |parts| == 2 {
        assert tail == p;
        assert j[|j| - |p| - 1] == sep;
      }
      assert j[|j| - |p|..] == tail[|tail| - |p|..];
    }
  }

  /** `needle` occurs in `hay` starting at index `i`. */
  ghost predicate OccursAt(hay: string, needle: string, i: int) {
    0 <= i <= |hay| - |needle| && hay[i..i + |needle|] == needle
  }

  /** Python's `needle in hay` on strings. */
  function Contains(hay: string, needle: string): (b: bool)
    ensures b <==> exists i :: OccursAt(hay, needle, i)
    decreases |hay|
  {
    if needle <= hay then
      assert OccursAt(hay, needle, 0);
      true
    else if hay == [] then
      false
    else
      var b := Contains(hay[1..], needle);
      OccursShift(hay, needle);
      b
  }

  /** An occurrence past index 0 is an occurrence in `hay[1..]`, one place earlier. */
  lemma OccursShift(hay: string, needle: string)
    requires hay != [] && !(needle <= hay)
    ensures (exists i :: OccursAt(hay, needle, i)) <==> (exists i :: OccursAt(hay[1..], needle, i))
  {
    assert !OccursAt(hay, needle, 0);
    if i :| OccursAt(hay, needle, i) {
      assert OccursAt(hay[1..], needle, i - 1);
    }
    if i :| OccursAt(hay[1..], needle, i) {
      assert OccursAt(hay, needle, i + 1);
    }
  }

  function Digit(d: nat): char
    requires d < 10
  {
    ('0' as int + d) as char
  }

  /** The decimal rendering of a natural number, as `f"{n}"` writes it. */
  function DecimalString(n: nat): (s: string)
    ensures |s| >= 1
    ensures n >= 10 ==> |s| >= 2
    ensures forall i :: 0 <= i < |s| ==> '0' <= s[i] <= '9'
  {
    if n < 10 then [Digit(n)] else DecimalString(n / 10) + [Digit(n % 10)]
  }

  /** Different numbers render differently. */
  lemma {:induction false} DecimalStringInjective(a: nat, b: nat)
    requires DecimalString(a) == DecimalString(b)
    ensures a == b
    decreases a
  {
    var s := DecimalString(a);
    if a >= 10 && b >= 10 {
      assert s[..|s| - 1] == DecimalString(a / 10);
      assert DecimalString(b)[..|s| - 1] == DecimalString(b / 10);
      DecimalStringInjective(a / 10, b / 10);
      assert Digit(a % 10) == s[|s| - 1] == Digit(b % 10);
    }
  }
}
