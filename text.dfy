/**
 * String operations shared by the frontend (JavaScript) and the backend
 * (Python): splitting on a literal delimiter, joining, substring search,
 * trimming, ASCII lower-casing and decimal rendering of integers.
 * Strings are sequences of Unicode code points.
 */
module Text {
  import opened Wrappers

  /** `s` begins with `prefix`. */
  predicate StartsWith(s: string, prefix: string) {
    |prefix| <= |s| && s[..|prefix|] == prefix
  }

  /** `t` occurs in `s` at index `i`. */
  predicate OccursAt(s: string, t: string, i: int) {
    0 <= i && i + |t| <= |s| && s[i..i + |t|] == t
  }

  /**
   * Substring test, as JavaScript `includes` and Python `in`; the empty
   * string occurs in every string.
   */
  predicate Contains(s: string, t: string)
    ensures Contains(s, t) ==> |t| <= |s|
    ensures t == [] ==> Contains(s, t)
    decreases |s|
  {
    StartsWith(s, t) || (s != [] && Contains(s[1..], t))
  }

  /** The scanning definition of Contains agrees with "occurs at some index". */
  lemma {:induction false} ContainsIffOccurs(s: string, t: string)
    ensures Contains(s, t) <==> exists i :: OccursAt(s, t, i)
    decreases |s|
  {
    if StartsWith(s, t) {
      assert OccursAt(s, t, 0);
    } else if s != [] {
      ContainsIffOccurs(s[1..], t);
      forall i | OccursAt(s[1..], t, i) ensures OccursAt(s, t, i + 1) {
        assert s[1..][i..i + |t|] == s[i + 1..i + 1 + |t|];
      }
      forall i | OccursAt(s, t, i) ensures OccursAt(s[1..], t, i - 1) {
        assert i != 0;
        assert s[1..][i - 1..i - 1 + |t|] == s[i..i + |t|];
      }
    }
  }

  /** An occurrence inside a slice is an occurrence in the whole string. */
  lemma OccursInSlice(s: string, t: string, a: nat, b: nat, i: int)
    requires a <= b <= |s| && OccursAt(s[a..b], t, i)
    ensures OccursAt(s, t, a + i)
  {
    var w := s[a..b];
    var u, v := w[i..i + |t|], s[a + i..a + i + |t|];
    assert forall k :: 0 <= k < |t| ==> u[k] == v[k];
    assert u == v;
  }

  /** An occurrence that lies within a slice is an occurrence in the slice. */
  lemma OccursWithinSlice(s: string, t: string, a: nat, b: nat, j: int)
    requires a <= j && j + |t| <= b <= |s| && OccursAt(s, t, j)
    ensures OccursAt(s[a..b], t, j - a)
  {
    var u, v := s[a..b][j - a..j - a + |t|], s[j..j + |t|];
    assert forall k :: 0 <= k < |t| ==> u[k] == v[k];
    assert u == v;
  }

  /** A one-character string occurs exactly where that character is. */
  lemma {:induction false} ContainsChar(s: string, c: char)
    ensures Contains(s, [c]) <==> exists i :: 0 <= i < |s| && s[i] == c
  {
    ContainsIffOccurs(s, [c]);
    forall i | 0 <= i < |s| && s[i] == c ensures OccursAt(s, [c], i) {
      assert s[i..i + 1] == [c];
    }
    forall i | OccursAt(s, [c], i) ensures s[i] == c {
      assert s[i..i + 1][0] == s[i];
    }
  }

  /** A string contains whatever is placed inside it. */
  lemma ContainsInfix(a: string, t: string, b: string)
    ensures Contains(a + t + b, t)
  {
    assert (a + t + b)[|a|..|a| + |t|] == t;
    assert OccursAt(a + t + b, t, |a|);
    ContainsIffOccurs(a + t + b, t);
  }

  /**
   * `s.split(d)` for a nonempty literal delimiter, in JavaScript and in
   * Python alike: the pieces between the leftmost non-overlapping
   * occurrences of `d`, scanning from the left. There is always one piece
   * more than there are delimiters.
   */
  function Split(s: string, d: string): (parts: seq<string>)
    requires d != []
    ensures parts != []
    decreases |s|
  {
    if StartsWith(s, d) then [""] + Split(s[|d|..], d)
    else if s == [] then [""]
    else
      var rest := Split(s[1..], d);
      [[s[0]] + rest[0]] + rest[1..]
  }

  /** `sep.join(parts)` in Python, `parts.join(sep)` in JavaScript. */
  function Join(parts: seq<string>, sep: string): (joined: string)
    ensures parts != [] ==> StartsWith(joined, parts[0])
  {
    if parts == [] then ""
    else if |parts| == 1 then parts[0]
    else
      var rest := Join(parts[1..], sep);
      assert (parts[0] + sep + rest)[..|parts[0]|] == parts[0];
      parts[0] + sep + rest
  }

  /** An empty first piece contributes only the separator before the rest. */
  lemma JoinEmptyHead(rest: seq<string>, sep: string)
    requires rest != []
    ensures Join([""] + rest, sep) == sep + Join(rest, sep)
  {
    assert ([""] + rest)[1..] == rest;
  }

  /** Prepending a character to the first piece prepends it to the joined text. */
  lemma JoinConsHead(c: char, parts: seq<string>, sep: string)
    requires parts != []
    ensures Join([[c] + parts[0]] + parts[1..], sep) == [c] + Join(parts, sep)
  {
    var p := [[c] + parts[0]] + parts[1..];
    if |parts| > 1 {
      assert p[1..] == parts[1..];
    }
  }

  /** Split round trip: joining the pieces with the delimiter gives back the input. */
  lemma {:induction false} JoinSplit(s: string, d: string)
    requires d != []
    ensures Join(Split(s, d), d) == s
    decreases |s|
  {
    if StartsWith(s, d) {
      JoinSplit(s[|d|..], d);
      JoinEmptyHead(Split(s[|d|..], d), d);
      assert s == d + s[|d|..];
    } else if s != [] {
      JoinSplit(s[1..], d);
      JoinConsHead(s[0], Split(s[1..], d), d);
      assert s == [s[0]] + s[1..];
    }
  }

  /** The first piece is a prefix of the input. */
  lemma {:induction false} SplitHead(s: string, d: string)
    requires d != []
    ensures StartsWith(s, Split(s, d)[0])
    decreases |s|
  {
    if !StartsWith(s, d) && s != [] {
      SplitHead(s[1..], d);
      var rest := Split(s[1..], d);
      assert [s[0]] + rest[0] == s[..1 + |rest[0]|];
    }
  }

  /** No piece produced by Split contains the delimiter. */
  lemma {:induction false} SplitPiecesFree(s: string, d: string)
    requires d != []
    ensures forall k :: 0 <= k < |Split(s, d)| ==> !Contains(Split(s, d)[k], d)
    decreases |s|
  {
    if StartsWith(s, d) {
      SplitPiecesFree(s[|d|..], d);
      var rest := Split(s[|d|..], d);
      assert forall k :: 1 <= k < |Split(s, d)| ==> Split(s, d)[k] == rest[k - 1];
    } else if s != [] {
      SplitPiecesFree(s[1..], d);
      SplitHead(s[1..], d);
      var rest := Split(s[1..], d);
      var head := [s[0]] + rest[0];
      assert head[1..] == rest[0];
      if |d| <= |head| {
        assert head[..|d|] == s[..|d|];
      }
      assert !Contains(head, d);
      assert forall k :: 1 <= k < |Split(s, d)| ==> Split(s, d)[k] == rest[k];
    }
  }

  /**
   * The other round trip: pieces that do not contain an unbordered
   * delimiter come back from splitting their join.
   */
  lemma {:induction false} SplitJoin(parts: seq<string>, d: string)
    requires d != [] && Unbordered(d) && parts != []
    requires forall k :: 0 <= k < |parts| ==> !Contains(parts[k], d)
    ensures Split(Join(parts, d), d) == parts
    decreases |parts|
  {
    SplitWithout(parts[0], d);
    if |parts| > 1 {
      SplitJoin(parts[1..], d);
      SplitAround(parts[0], d, Join(parts[1..], d));
      assert [parts[0]] + parts[1..] == parts;
    }
  }

  /** Text without the delimiter is a single piece. */
  lemma {:induction false} SplitWithout(s: string, d: string)
    requires d != [] && !Contains(s, d)
    ensures Split(s, d) == [s]
    decreases |s|
  {
    if s != [] {
      SplitWithout(s[1..], d);
      assert [s[0]] + s[1..] == s;
    }
  }

  /**
   * Splitting `a + d + b` where no character of `a` can begin the delimiter
   * gives `a` as the first piece, followed by the pieces of `b`.
   */
  lemma {:induction false} SplitAfterPlain(a: string, d: string, b: string)
    requires d != [] && forall i :: 0 <= i < |a| ==> a[i] != d[0]
    ensures Split(a + d + b, d) == [a] + Split(b, d)
    decreases |a|
  {
    if a == [] {
      assert a + d + b == d + b;
      assert (d + b)[|d|..] == b;
    } else {
      assert (a + d + b)[0] != d[0];
      assert (a + d + b)[1..] == a[1..] + d + b;
      SplitAfterPlain(a[1..], d, b);
      assert [a[0]] + a[1..] == a;
    }
  }

  /** Text in which no character can begin the delimiter is a single piece. */
  lemma {:induction false} SplitPlain(a: string, d: string)
    requires d != [] && forall i :: 0 <= i < |a| ==> a[i] != d[0]
    ensures Split(a, d) == [a]
    decreases |a|
  {
    if a != [] {
      if |d| <= |a| {
        assert a[..|d|][0] == a[0];
      }
      assert !StartsWith(a, d);
      SplitPlain(a[1..], d);
      assert [a[0]] + a[1..] == a;
    }
  }

  /** A delimiter none of whose proper suffixes is also a prefix of it. */
  predicate Unbordered(d: string) {
    forall m :: 0 < m < |d| ==> !StartsWith(d, d[m..])
  }

  /** The number of indices at which `d` occurs in `s`. */
  function Occurrences(s: string, d: string): nat
    requires d != []
    decreases |s|
  {
    if |s| < |d| then 0
    else (if StartsWith(s, d) then 1 else 0) + Occurrences(s[1..], d)
  }

  /** An unbordered delimiter cannot begin again strictly inside one of its occurrences. */
  lemma {:induction false} OccurrencesSkip(s: string, d: string, m: nat)
    requires d != [] && Unbordered(d) && StartsWith(s, d) && 0 < m <= |d|
    ensures Occurrences(s[m..], d) == Occurrences(s[|d|..], d)
    decreases |d| - m
  {
    if m < |d| && |s[m..]| >= |d| {
      assert !StartsWith(d, d[m..]);
      assert s[m..][..|d| - m] == d[m..];
      assert s[m..][1..] == s[m + 1..];
      OccurrencesSkip(s, d, m + 1);
    }
  }

  /**
   * For an unbordered delimiter, leftmost non-overlapping matches are all
   * the matches: Split yields one piece more than there are occurrences.
   */
  lemma {:induction false} SplitCount(s: string, d: string)
    requires d != [] && Unbordered(d)
    ensures |Split(s, d)| == 1 + Occurrences(s, d)
    decreases |s|
  {
    if StartsWith(s, d) {
      SplitCount(s[|d|..], d);
      OccurrencesSkip(s, d, 1);
    } else if s != [] {
      SplitCount(s[1..], d);
    }
  }

  /**
   * For an unbordered delimiter, the occurrence placed between `a` and `b`
   * is a split point, and the pieces on either side are those of `a` and `b`.
   */
  lemma {:induction false} SplitAround(a: string, d: string, b: string)
    requires d != [] && Unbordered(d)
    ensures Split(a + d + b, d) == Split(a, d) + Split(b, d)
    decreases |a|
  {
    var s := a + d + b;
    if a == [] {
      assert s == d + b;
      assert s[|d|..] == b;
    } else if StartsWith(a, d) {
      assert s[..|d|] == a[..|d|];
      assert s[|d|..] == a[|d|..] + d + b;
      SplitAround(a[|d|..], d, b);
    } else {
      NoStartAcross(a, d, b);
      assert s[1..] == a[1..] + d + b;
      SplitAround(a[1..], d, b);
    }
  }

  /** When `a` does not start with an unbordered `d`, neither does `a + d + b`. */
  lemma NoStartAcross(a: string, d: string, b: string)
    requires d != [] && Unbordered(d) && a != [] && !StartsWith(a, d)
    ensures !StartsWith(a + d + b, d)
  {
    var s := a + d + b;
    if |a| < |d| {
      assert !StartsWith(d, d[|a|..]);
      assert s[..|d|][|a|..] == d[..|d| - |a|];
      assert d[|a|..] != d[..|d| - |a|];
    } else {
      assert s[..|d|] == a[..|d|];
    }
  }

  /** The code points ECMAScript counts as white space or line terminators: `\s` and what `trim` removes. */
  predicate JsSpace(c: char) {
    c == '\t' || c == '\n' || c == '\U{0B}' || c == '\U{0C}' || c == '\r' || c == ' '
    || c == '\U{A0}' || c == '\U{1680}' || ('\U{2000}' <= c <= '\U{200A}')
    || c == '\U{2028}' || c == '\U{2029}' || c == '\U{202F}' || c == '\U{205F}'
    || c == '\U{3000}' || c == '\U{FEFF}'
  }

  /** The code points for which Python's `str.isspace` holds: what `strip()` removes. */
  predicate PySpace(c: char) {
    ('\t' <= c <= '\r') || ('\U{1C}' <= c <= ' ') || c == '\U{85}' || c == '\U{A0}'
    || c == '\U{1680}' || ('\U{2000}' <= c <= '\U{200A}') || c == '\U{2028}'
    || c == '\U{2029}' || c == '\U{202F}' || c == '\U{205F}' || c == '\U{3000}'
  }

  /** Removes the leading characters in `ws`. */
  function TrimStart(s: string, ws: char -> bool): (r: string)
    ensures |r| <= |s|
    ensures r != [] ==> !ws(r[0])
    decreases |s|
  {
    if s != [] && ws(s[0]) then TrimStart(s[1..], ws) else s
  }

  /** Removes the trailing characters in `ws`. */
  function TrimEnd(s: string, ws: char -> bool): (r: string)
    ensures |r| <= |s|
    ensures r != [] ==> !ws(r[|r| - 1])
    decreases |s|
  {
    if s != [] && ws(s[|s| - 1]) then TrimEnd(s[..|s| - 1], ws) else s
  }

  /** TrimStart keeps a suffix of its input, and everything it removes is in `ws`. */
  lemma {:induction false} TrimStartRemovesSpace(s: string, ws: char -> bool)
    ensures TrimStart(s, ws) == s[|s| - |TrimStart(s, ws)|..]
    ensures forall i :: 0 <= i < |s| - |TrimStart(s, ws)| ==> ws(s[i])
    decreases |s|
  {
    if s != [] && ws(s[0]) {
      TrimStartRemovesSpace(s[1..], ws);
      assert forall i :: 1 <= i < |s| - |TrimStart(s, ws)| ==> s[i] == s[1..][i - 1];
    }
  }

  /** TrimEnd keeps a prefix of its input, and everything it removes is in `ws`. */
  lemma {:induction false} TrimEndRemovesSpace(s: string, ws: char -> bool)
    ensures TrimEnd(s, ws) == s[..|TrimEnd(s, ws)|]
    ensures forall i :: |TrimEnd(s, ws)| <= i < |s| ==> ws(s[i])
    decreases |s|
  {
    if s != [] && ws(s[|s| - 1]) {
      TrimEndRemovesSpace(s[..|s| - 1], ws);
      assert forall i :: |TrimEnd(s, ws)| <= i < |s| - 1 ==> s[i] == s[..|s| - 1][i];
    }
  }

  /**
   * JavaScript `trim()` with `ws := JsSpace`, Python `strip()` with
   * `ws := PySpace`: the result begins and ends with a character outside `ws`.
   */
  function Trim(s: string, ws: char -> bool): (r: string)
    ensures |r| <= |s|
    ensures r != [] ==> !ws(r[0]) && !ws(r[|r| - 1])
  {
    TrimEndRemovesSpace(TrimStart(s, ws), ws);
    TrimEnd(TrimStart(s, ws), ws)
  }

  /**
   * Trim keeps one contiguous slice of its input and removes only
   * characters in `ws` around it.
   */
  lemma TrimBounds(s: string, ws: char -> bool) returns (a: nat, b: nat)
    ensures a <= b <= |s| && Trim(s, ws) == s[a..b]
    ensures forall i :: 0 <= i < a ==> ws(s[i])
    ensures forall i :: b <= i < |s| ==> ws(s[i])
  {
    var t := TrimStart(s, ws);
    var r := TrimEnd(t, ws);
    TrimStartRemovesSpace(s, ws);
    TrimEndRemovesSpace(t, ws);
    a := |s| - |t|;
    b := a + |r|;
    assert t == s[a..];
    assert r == t[..|r|];
    assert r == s[a..b];
    forall i | b <= i < |s| ensures ws(s[i]) {
      assert s[i] == t[i - a];
    }
  }

  /** A character absent from the text is absent from its trimmed form. */
  lemma TrimKeepsOut(s: string, ws: char -> bool, c: char)
    requires forall i :: 0 <= i < |s| ==> s[i] != c
    ensures forall i :: 0 <= i < |Trim(s, ws)| ==> Trim(s, ws)[i] != c
  {
    var a, b := TrimBounds(s, ws);
    forall i | 0 <= i < |Trim(s, ws)| ensures Trim(s, ws)[i] != c {
      assert Trim(s, ws)[i] == s[a + i];
    }
  }

  /** Trimming leaves nothing exactly when every character is in `ws`. */
  lemma TrimEmptyIff(s: string, ws: char -> bool)
    ensures Trim(s, ws) == [] <==> forall i :: 0 <= i < |s| ==> ws(s[i])
  {
    var a, b := TrimBounds(s, ws);
    if Trim(s, ws) != [] {
      assert !ws(s[a]);
    }
  }

  /** Trim is the identity on text that starts and ends outside `ws`. */
  lemma TrimTrimmed(s: string, ws: char -> bool)
    requires s != [] ==> !ws(s[0]) && !ws(s[|s| - 1])
    ensures Trim(s, ws) == s
  {
  }

  /** Trimming twice is trimming once. */
  lemma TrimIdempotent(s: string, ws: char -> bool)
    ensures Trim(Trim(s, ws), ws) == Trim(s, ws)
  {
    TrimTrimmed(Trim(s, ws), ws);
  }

  /** ASCII lower-casing of one character. */
  function LowerChar(c: char): char {
    if 'A' <= c <= 'Z' then (c as int + 32) as char else c
  }

  /** `toLowerCase()` / `lower()`, restricted to the ASCII letters. */
  function AsciiLower(s: string): (r: string)
    ensures |r| == |s|
    ensures forall i :: 0 <= i < |s| ==> r[i] == LowerChar(s[i])
  {
    seq(|s|, i requires 0 <= i < |s| => LowerChar(s[i]))
  }

  /** Lower-casing commutes with concatenation. */
  lemma AsciiLowerConcat(a: string, b: string)
    ensures AsciiLower(a + b) == AsciiLower(a) + AsciiLower(b)
  {
  }

  /** Lower-casing commutes with taking a slice. */
  lemma AsciiLowerSlice(s: string, a: nat, b: nat)
    requires a <= b <= |s|
    ensures AsciiLower(s[a..b]) == AsciiLower(s)[a..b]
  {
  }

  /** The character of one decimal digit. */
  function DigitChar(d: nat): char
    requires d < 10
  {
    "0123456789"[d]
  }

  /** Python `str(n)` for a natural number: its decimal digits, most significant first, without leading zeros. */
  function NatToDecimal(n: nat): (r: string)
    ensures r != []
    ensures forall i :: 0 <= i < |r| ==> '0' <= r[i] <= '9'
    ensures r[0] == '0' ==> n == 0
    decreases n
  {
    if n < 10 then [DigitChar(n)] else NatToDecimal(n / 10) + [DigitChar(n % 10)]
  }

  /** The number a string of decimal digits denotes. */
  function DecimalValue(s: string): nat
    requires forall i :: 0 <= i < |s| ==> '0' <= s[i] <= '9'
  {
    if s == [] then 0
    else 10 * DecimalValue(s[..|s| - 1]) + (s[|s| - 1] as int - '0' as int)
  }

  /** Reading the decimal rendering of `n` gives back `n`. */
  lemma {:induction false} DecimalRoundTrip(n: nat)
    ensures DecimalValue(NatToDecimal(n)) == n
    decreases n
  {
    var r := NatToDecimal(n);
    if n >= 10 {
      DecimalRoundTrip(n / 10);
      assert r[..|r| - 1] == NatToDecimal(n / 10);
    }
  }

  /** Python `str(n)` for any integer: a minus sign before the digits of a negative number. */
  function IntToDecimal(n: int): (r: string)
    ensures r != []
    ensures (r[0] == '-') <==> n < 0
  {
    if n < 0 then "-" + NatToDecimal(-n) else NatToDecimal(n)
  }

  /** Every character is a decimal digit. */
  predicate AllDigits(s: string) {
    forall i :: 0 <= i < |s| ==> '0' <= s[i] <= '9'
  }

  /** Python `int(s)` for the renderings IntToDecimal produces: optional minus sign, then digits. */
  function ReadInt(s: string): (n: Option<int>)
  {
    if s == [] then None
    else if s[0] == '-' then
      var digits := s[1..];
      if digits != [] && AllDigits(digits) then
        var v: int := DecimalValue(digits);
        Some(-v)
      else None
    else if AllDigits(s) then Some(DecimalValue(s))
    else None
  }

  /** A minus sign before a nonempty run of digits reads as the negated value of the digits. */
  lemma ReadNegative(r: string)
    requires r != [] && AllDigits(r)
    ensures ReadInt("-" + r) == Some(-(DecimalValue(r) as int))
  {
    assert ("-" + r)[0] == '-';
    assert ("-" + r)[1..] == r;
  }

  /** A nonempty run of digits reads as its value. */
  lemma ReadDigits(r: string)
    requires r != [] && AllDigits(r)
    ensures ReadInt(r) == Some(DecimalValue(r))
  {
    assert r[0] != '-';
  }

  /** Reading the decimal rendering of a natural number gives it back. */
  lemma ReadNat(n: nat)
    ensures ReadInt(NatToDecimal(n)) == Some(n)
  {
    DecimalRoundTrip(n);
    ReadDigits(NatToDecimal(n));
  }

  /** Reading a minus sign and the decimal rendering of a natural number gives back its negation. */
  lemma ReadNegated(n: nat)
    ensures ReadInt("-" + NatToDecimal(n)) == Some(-(n as int))
  {
    DecimalRoundTrip(n);
    ReadNegative(NatToDecimal(n));
  }

  /** Reading the decimal rendering of any integer gives it back. */
  lemma IntRoundTrip(n: int)
    ensures ReadInt(IntToDecimal(n)) == Some(n)
  {
    if n < 0 {
      ReadNegated(-n);
      assert IntToDecimal(n) == "-" + NatToDecimal(-n);
    } else {
      ReadNat(n);
      assert IntToDecimal(n) == NatToDecimal(n);
    }
  }
}
