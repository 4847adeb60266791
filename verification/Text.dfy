/** The string operations the modelled code uses, over sequences of characters:
    decimal and hexadecimal printing and parsing, split, join, trim and ASCII
    lower-casing, with the inverses the address and owner-name proofs rest on. */
module Text {

  /* ------------------------------------------------------------ numerals */

  predicate IsDigit(c: char) {
    '0' <= c <= '9'
  }

  predicate IsHex(c: char) {
    IsDigit(c) || 'a' <= c <= 'f'
  }

  predicate AllDigits(s: string) {
    forall i :: 0 <= i < |s| ==> IsDigit(s[i])
  }

  predicate AllHex(s: string) {
    forall i :: 0 <= i < |s| ==> IsHex(s[i])
  }

  function DigitValue(c: char): (v: nat)
    requires IsHex(c)
    ensures v < 16
    ensures IsDigit(c) ==> v < 10
  {
    if IsDigit(c) then c as int - '0' as int else c as int - 'a' as int + 10
  }

  function DigitChar(v: nat): (c: char)
    requires v < 16
    ensures IsHex(c) && DigitValue(c) == v
    ensures v < 10 ==> IsDigit(c)
    ensures c == '0' <==> v == 0
  {
    if v < 10 then ('0' as int + v) as char else ('a' as int + (v - 10)) as char
  }

  /** `String(n)`. */
  function ToDec(n: nat): (s: string)
    ensures AllDigits(s) && |s| >= 1
    ensures |s| > 1 ==> s[0] != '0'
    ensures n != 0 ==> s[0] != '0'
  {
    if n < 10 then [DigitChar(n)] else ToDec(n / 10) + [DigitChar(n % 10)]
  }

  /** `Number(s)` of a run of decimal digits. */
  function ParseDec(s: string): nat
    requires AllDigits(s)
  {
    if s == "" then 0 else ParseDec(s[..|s| - 1]) * 10 + DigitValue(s[|s| - 1])
  }

  lemma {:induction false} ParseToDec(n: nat)
    ensures ParseDec(ToDec(n)) == n
  {
    if n >= 10 {
      ParseToDec(n / 10);
      assert ToDec(n)[..|ToDec(n)| - 1] == ToDec(n / 10);
    }
  }

  lemma ToDecInjective(m: nat, n: nat)
    requires ToDec(m) == ToDec(n)
    ensures m == n
  {
    ParseToDec(m);
    ParseToDec(n);
  }

  lemma {:induction false} ParsePositive(s: string)
    requires AllDigits(s) && |s| >= 1 && s[0] != '0'
    ensures ParseDec(s) > 0
  {
    if |s| > 1 { ParsePositive(s[..|s| - 1]); }
  }

  /** A numeral without a superfluous leading zero is the one `String` prints. */
  lemma {:induction false} ToDecParse(s: string)
    requires AllDigits(s) && |s| >= 1 && (|s| > 1 ==> s[0] != '0')
    ensures ToDec(ParseDec(s)) == s
  {
    if |s| == 1 {
      assert s[..0] == "";
      assert s == [s[0]];
    } else {
      var p := s[..|s| - 1];
      ParsePositive(p);
      ToDecParse(p);
      assert s == p + [s[|s| - 1]];
    }
  }

  lemma {:induction false} ToDecLength(n: nat)
    requires n < 1000
    ensures |ToDec(n)| <= 3
  {
    if n >= 10 {
      assert |ToDec(n / 10)| <= 2 by {
        if n / 10 >= 10 { assert |ToDec(n / 10 / 10)| == 1; }
      }
    }
  }

  /** `n.toString(16)`. */
  function ToHex(n: nat): (s: string)
    ensures AllHex(s) && |s| >= 1
    ensures |s| > 1 ==> s[0] != '0'
    ensures n != 0 ==> s[0] != '0'
  {
    if n < 16 then [DigitChar(n)] else ToHex(n / 16) + [DigitChar(n % 16)]
  }

  /** `parseInt(s, 16)` of a run of hexadecimal digits. */
  function ParseHex(s: string): nat
    requires AllHex(s)
  {
    if s == "" then 0 else ParseHex(s[..|s| - 1]) * 16 + DigitValue(s[|s| - 1])
  }

  function Repeat<T>(x: T, n: nat): (s: seq<T>)
    ensures |s| == n && forall i :: 0 <= i < n ==> s[i] == x
  {
    seq(n, _ => x)
  }

  /** `s.padStart(width, "0")`. */
  function PadZeros(s: string, width: nat): (r: string)
    ensures |r| == if |s| < width then width else |s|
  {
    if |s| >= width then s else Repeat('0', width - |s|) + s
  }

  /** Printing a group without leading zeros and padding it again is the identity. */
  lemma {:induction false} PadToHexParse(s: string)
    requires AllHex(s) && |s| >= 1
    ensures |ToHex(ParseHex(s))| <= |s|
    ensures PadZeros(ToHex(ParseHex(s)), |s|) == s
  {
    hide *;
    var p, c := s[..|s| - 1], s[|s| - 1];
    ParseHexStep(s);
    if |s| == 1 {
      OneDigit(c);
      assert s == [c];
      PadNone([c], 1);
    } else {
      PadToHexParse(p);
      var n := ParseHex(p);
      ToHexStep(n, c);
      if n == 0 {
        ZeroDigits(p);
        PadAfterZeros(p, c);
      } else {
        PadBefore(ToHex(n), c, |p|);
      }
    }
    assert s == p + [c];
  }

  lemma ParseHexStep(s: string)
    requires AllHex(s) && s != ""
    ensures AllHex(s[..|s| - 1]) && IsHex(s[|s| - 1])
    ensures ParseHex(s) == ParseHex(s[..|s| - 1]) * 16 + DigitValue(s[|s| - 1])
    ensures |s| == 1 ==> ParseHex(s[..|s| - 1]) == 0
  {}

  lemma OneDigit(c: char)
    requires IsHex(c)
    ensures ToHex(DigitValue(c)) == [c]
  {}

  lemma ToHexStep(n: nat, c: char)
    requires IsHex(c)
    ensures ToHex(n * 16 + DigitValue(c)) == if n == 0 then [c] else ToHex(n) + [c]
  {}

  lemma PadNone(s: string, width: nat)
    requires |s| >= width
    ensures PadZeros(s, width) == s
  {}

  lemma ZeroDigits(p: string)
    requires p != "" && PadZeros(ToHex(0), |p|) == p
    ensures p == Repeat('0', |p|)
  {
    assert ToHex(0) == "0";
  }

  lemma PadAfterZeros(p: string, c: char)
    requires p == Repeat('0', |p|)
    ensures PadZeros([c], |p| + 1) == p + [c]
  {}

  lemma PadBefore(t: string, c: char, width: nat)
    requires |t| <= width
    ensures PadZeros(t + [c], width + 1) == PadZeros(t, width) + [c]
  {}

  /* ---------------------------------------------------------- split, join */

  /** `s.split(c)` for a one-character separator. */
  function Split(s: string, c: char): (r: seq<string>)
    ensures |r| >= 1
  {
    if s == "" then [""]
    else if s[0] == c then [""] + Split(s[1..], c)
    else
      var r := Split(s[1..], c);
      [[s[0]] + r[0]] + r[1..]
  }

  /** `parts.join(sep)`. */
  function Join(parts: seq<string>, sep: string): string {
    if |parts| == 0 then ""
    else if |parts| == 1 then parts[0]
    else parts[0] + sep + Join(parts[1..], sep)
  }

  predicate Free(s: string, c: char) {
    forall i :: 0 <= i < |s| ==> s[i] != c
  }

  predicate AllFree(parts: seq<string>, c: char) {
    forall i :: 0 <= i < |parts| ==> Free(parts[i], c)
  }

  lemma {:induction false} SplitFree(s: string, c: char)
    ensures AllFree(Split(s, c), c)
  {
    if s != "" { SplitFree(s[1..], c); }
  }

  lemma {:induction false} SplitOfFree(s: string, c: char)
    requires Free(s, c)
    ensures Split(s, c) == [s]
  {
    if s != "" { SplitOfFree(s[1..], c); assert [s[0]] + s[1..] == s; }
  }

  lemma {:induction false} SplitConcat(a: string, c: char, b: string)
    requires Free(a, c)
    ensures Split(a + [c] + b, c) == [a] + Split(b, c)
  {
    if a == "" {
      assert (a + [c] + b)[1..] == b;
    } else {
      SplitConcat(a[1..], c, b);
      assert (a + [c] + b)[1..] == a[1..] + [c] + b;
      assert [a[0]] + a[1..] == a;
    }
  }

  lemma {:induction false} SplitJoin(parts: seq<string>, c: char)
    requires |parts| >= 1 && AllFree(parts, c)
    ensures Split(Join(parts, [c]), c) == parts
  {
    if |parts| == 1 {
      SplitOfFree(parts[0], c);
    } else {
      SplitJoin(parts[1..], c);
      SplitConcat(parts[0], c, Join(parts[1..], [c]));
    }
  }

  lemma {:induction false} JoinSplit(s: string, c: char)
    ensures Join(Split(s, c), [c]) == s
  {
    if s != "" {
      JoinSplit(s[1..], c);
      var r := Split(s[1..], c);
      if s[0] == c {
        assert ([""] + r)[1..] == r;
      } else {
        var q := [[s[0]] + r[0]] + r[1..];
        if |r| > 1 { assert q[1..] == r[1..]; }
      }
      assert [s[0]] + s[1..] == s;
    }
  }

  lemma {:induction false} JoinAppend(a: seq<string>, b: seq<string>, sep: string)
    requires |a| >= 1 && |b| >= 1
    ensures Join(a + b, sep) == Join(a, sep) + sep + Join(b, sep)
  {
    if |a| == 1 {
      assert (a + b)[1..] == b;
    } else {
      JoinAppend(a[1..], b, sep);
      assert (a + b)[1..] == a[1..] + b;
    }
  }

  /** How many dots a text has. */
  function Dots(s: string): nat {
    if s == "" then 0 else (if s[0] == '.' then 1 else 0) + Dots(s[1..])
  }

  lemma {:induction false} SplitCount(s: string)
    ensures |Split(s, '.')| == Dots(s) + 1
  {
    if s != "" { SplitCount(s[1..]); }
  }

  lemma {:induction false} DotsConcat(a: string, b: string)
    ensures Dots(a + b) == Dots(a) + Dots(b)
  {
    if a == "" {
      assert a + b == b;
    } else {
      DotsConcat(a[1..], b);
      assert (a + b)[1..] == a[1..] + b;
    }
  }

  /* ------------------------------------------------------- case and space */

  function LowerChar(c: char): (r: char)
    ensures !('A' <= r <= 'Z')
  {
    if 'A' <= c <= 'Z' then (c as int - 'A' as int + 'a' as int) as char else c
  }

  /** `s.toLowerCase()` on ASCII. */
  function Lower(s: string): (r: string)
    ensures |r| == |s|
    ensures forall i :: 0 <= i < |s| ==> r[i] == LowerChar(s[i])
  {
    seq(|s|, i requires 0 <= i < |s| => LowerChar(s[i]))
  }

  /** The distinct lower-case spellings, first occurrences first. */
  function LowerSet(values: seq<string>): seq<string> {
    if values == [] then []
    else
      var init, v := LowerSet(values[..|values| - 1]), Lower(values[|values| - 1]);
      if v in init then init else init + [v]
  }

  lemma {:induction false} LowerSetMember(values: seq<string>, n: string)
    ensures n in LowerSet(values) <==> exists v :: v in values && Lower(v) == n
  {
    hide Lower;
    if values != [] {
      var m := |values| - 1;
      LowerSetMember(values[..m], n);
      assert values == values[..m] + [values[m]];
      assert forall v :: v in values <==> v in values[..m] || v == values[m];
    }
  }

  lemma {:induction false} LowerSetDistinct(values: seq<string>)
    ensures forall i, j :: 0 <= i < j < |LowerSet(values)| ==> LowerSet(values)[i] != LowerSet(values)[j]
  {
    hide Lower;
    if values != [] { LowerSetDistinct(values[..|values| - 1]); }
  }

  lemma LowerIdempotent(s: string)
    ensures Lower(Lower(s)) == Lower(s)
  {}

  predicate IsSpace(c: char) {
    c == ' ' || '\t' <= c <= '\r'
  }

  predicate Trimmed(s: string) {
    s == "" || (!IsSpace(s[0]) && !IsSpace(s[|s| - 1]))
  }

  function TrimStart(s: string): (r: string)
    ensures r == "" || !IsSpace(r[0])
    ensures |r| <= |s| && r == s[|s| - |r|..]
    ensures s != "" && !IsSpace(s[0]) ==> r == s
  {
    hide IsSpace;
    if s != "" && IsSpace(s[0]) then TrimStart(s[1..]) else s
  }

  function TrimEnd(s: string): (r: string)
    ensures r == "" || !IsSpace(r[|r| - 1])
    ensures |r| <= |s| && r == s[..|r|]
    ensures s != "" && !IsSpace(s[|s| - 1]) ==> r == s
  {
    hide IsSpace;
    if s != "" && IsSpace(s[|s| - 1]) then TrimEnd(s[..|s| - 1]) else s
  }

  /** `s.trim()` on ASCII white space. */
  function Trim(s: string): (r: string)
    ensures Trimmed(r)
    ensures Trimmed(s) ==> r == s
  {
    TrimEnd(TrimStart(s))
  }

  predicate AllSpace(s: string) {
    forall i :: 0 <= i < |s| ==> IsSpace(s[i])
  }

  lemma SpaceFirst(s: string, n: nat)
    requires 1 <= n <= |s| && IsSpace(s[0]) && AllSpace(s[1..][..n - 1])
    ensures AllSpace(s[..n])
  {
    hide IsSpace;
    assert s[..n] == [s[0]] + s[1..][..n - 1];
  }

  lemma {:induction false} TrimStartIs(s: string)
    ensures AllSpace(s[..|s| - |TrimStart(s)|])
  {
    hide IsSpace, AllSpace;
    if s != "" && IsSpace(s[0]) {
      TrimStartIs(s[1..]);
      SpaceFirst(s, |s| - |TrimStart(s)|);
    } else {
      NoSpace(s);
    }
  }

  lemma NoSpace(s: string)
    ensures AllSpace(s[..0]) && AllSpace(s[|s|..])
  {}

  lemma SpaceLast(s: string, n: nat)
    requires n < |s| && IsSpace(s[|s| - 1]) && AllSpace(s[..|s| - 1][n..])
    ensures AllSpace(s[n..])
  {
    hide IsSpace;
    assert s[n..] == s[..|s| - 1][n..] + [s[|s| - 1]];
  }

  lemma {:induction false} TrimEndIs(s: string)
    ensures AllSpace(s[|TrimEnd(s)|..])
  {
    hide IsSpace, AllSpace;
    if s != "" && IsSpace(s[|s| - 1]) {
      TrimEndIs(s[..|s| - 1]);
      SpaceLast(s, |TrimEnd(s)|);
    } else {
      NoSpace(s);
    }
  }

  lemma CutTwice(s: string, i: nat, j: nat)
    requires i <= j <= |s|
    ensures s == s[..i] + s[i..][..j - i] + s[i..][j - i..]
  {}

  /** Trimming takes white space off both ends and nothing else. */
  lemma TrimIs(s: string) returns (left: string, right: string)
    ensures s == left + Trim(s) + right && AllSpace(left) && AllSpace(right)
  {
    hide TrimStart, TrimEnd, AllSpace, IsSpace, Trimmed;
    var t := TrimStart(s);
    var i, j := |s| - |t|, |TrimEnd(t)|;
    TrimStartIs(s);
    TrimEndIs(t);
    left, right := s[..i], s[i..][j..];
    CutTwice(s, i, i + j);
  }

  /** `s.endsWith(t)`. */
  predicate EndsWith(s: string, t: string) {
    |t| <= |s| && s[|s| - |t|..] == t
  }

  lemma {:induction false} SuffixIsLabels(s: string, zone: string) returns (i: nat)
    requires EndsWith(s, "." + zone)
    ensures 1 <= i < |Split(s, '.')| && Join(Split(s, '.')[i..], ".") == zone
    decreases |s|
  {
    var q := Split(s, '.');
    if |s| == |zone| + 1 {
      assert s == "." + zone && s[1..] == zone;
      assert q[1..] == Split(zone, '.');
      JoinSplit(zone, '.');
      i := 1;
    } else {
      assert s[1..][|s| - 1 - |zone| - 1..] == s[|s| - |zone| - 1..];
      i := SuffixIsLabels(s[1..], zone);
      var r := Split(s[1..], '.');
      if s[0] == '.' {
        assert q == [""] + r;
        assert q[i + 1..] == r[i..];
        i := i + 1;
      } else {
        assert q == [[s[0]] + r[0]] + r[1..];
        assert q[i..] == r[i..];
      }
    }
  }

  lemma LabelsAreSuffix(s: string, i: nat)
    requires 1 <= i < |Split(s, '.')|
    ensures EndsWith(s, "." + Join(Split(s, '.')[i..], "."))
  {
    hide Split, Join;
    var q := Split(s, '.');
    JoinSplit(s, '.');
    JoinAppend(q[..i], q[i..], ".");
    assert q[..i] + q[i..] == q;
    var z := "." + Join(q[i..], ".");
    assert s == Join(q[..i], ".") + z;
  }
}
