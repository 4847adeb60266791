/** Base32 over a 32-bit accumulator that is never masked, and the HOTP construction
    around an abstract keyed digest. */
module Totp {
  import opened Bits
  import opened Options
  import opened Text

  type Byte = b: nat | b < 256

  /* -------------------------------------------------------- bit strings */

  function Weight(b: bool): nat {
    if b then 1 else 0
  }

  /** The number a bit string denotes, most significant bit first. */
  function Value(bits: seq<bool>): nat {
    if bits == [] then 0 else 2 * Value(bits[..|bits| - 1]) + Weight(bits[|bits| - 1])
  }

  /** The low bits of a number. */
  function BitsOf(n: nat, width: nat): (r: seq<bool>)
    ensures |r| == width
  {
    if width == 0 then [] else BitsOf(n / 2, width - 1) + [n % 2 == 1]
  }

  lemma {:induction false} ValueBound(bits: seq<bool>)
    ensures Value(bits) < Pow2(|bits|)
  {
    if bits != [] { ValueBound(bits[..|bits| - 1]); }
  }

  lemma {:induction false} ValueOfBits(n: nat, width: nat)
    requires n < Pow2(width)
    ensures Value(BitsOf(n, width)) == n
  {
    hide *;
    WidthStep(n, width);
    if width > 0 {
      ValueOfBits(n / 2, width - 1);
      ValueLast(BitsOf(n / 2, width - 1), n % 2 == 1);
    }
  }

  lemma WidthStep(n: nat, width: nat)
    ensures width > 0 ==>
              BitsOf(n, width) == BitsOf(n / 2, width - 1) + [n % 2 == 1] &&
              (n < Pow2(width) ==> n / 2 < Pow2(width - 1))
    ensures width == 0 ==> Value(BitsOf(n, width)) == 0 && Pow2(width) == 1
  {}

  lemma ValueLast(bits: seq<bool>, b: bool)
    ensures Value(bits + [b]) == 2 * Value(bits) + (if b then 1 else 0)
  {
    assert (bits + [b])[..|bits|] == bits;
  }

  lemma {:induction false} BitsOfValue(bits: seq<bool>)
    ensures BitsOf(Value(bits), |bits|) == bits
  {
    hide *;
    if bits != [] {
      var init, last := bits[..|bits| - 1], bits[|bits| - 1];
      BitsOfValue(init);
      assert bits == init + [last];
      ValueLast(init, last);
      WidthStep(Value(bits), |bits|);
    }
  }

  lemma {:induction false} Pow2Add(m: nat, n: nat)
    ensures Pow2(m + n) == Pow2(m) * Pow2(n)
  {
    if m > 0 {
      Pow2Add(m - 1, n);
      Twice(Pow2(m - 1), Pow2(n));
    }
  }

  lemma Twice(a: nat, b: nat)
    ensures 2 * (a * b) == (2 * a) * b
  {}

  lemma {:induction false} ValueConcat(a: seq<bool>, b: seq<bool>)
    ensures Value(a + b) == Value(a) * Pow2(|b|) + Value(b)
  {
    if b == [] {
      assert a + b == a;
    } else {
      var init := b[..|b| - 1];
      ValueConcat(a, init);
      assert (a + b)[..|a + b| - 1] == a + init;
      TwiceOf(Value(a), Pow2(|init|));
    }
  }

  lemma TwiceOf(a: nat, b: nat)
    ensures 2 * (a * b) == a * (2 * b)
  {}

  /** All the bits of the bytes, in order. */
  function BitString(bytes: seq<Byte>): (r: seq<bool>)
    ensures |r| == 8 * |bytes|
  {
    if bytes == [] then [] else BitString(bytes[..|bytes| - 1]) + BitsOf(bytes[|bytes| - 1], 8)
  }

  /** The bits in groups of five, the last group filled up with zeros. */
  function Quintets(bits: seq<bool>): (r: seq<nat>)
    ensures |r| == (|bits| + 4) / 5
    ensures forall i :: 0 <= i < |r| ==> r[i] < 32
    decreases |bits|
  {
    if bits == [] then []
    else if |bits| < 5 then
      var g := bits + Repeat(false, 5 - |bits|);
      ValueBound(g);
      Powers();
      [Value(g)]
    else
      ValueBound(bits[..5]);
      Powers();
      [Value(bits[..5])] + Quintets(bits[5..])
  }

  /** The whole octets at the front of the bits; what is left over is dropped. */
  function Octets(bits: seq<bool>): (r: seq<Byte>)
    ensures |r| == |bits| / 8
    decreases |bits|
  {
    if |bits| < 8 then []
    else
      ValueBound(bits[..8]);
      Powers();
      [Value(bits[..8])] + Octets(bits[8..])
  }

  lemma Powers()
    ensures Pow2(5) == 32 && Pow2(8) == 256 && Pow2(16) == 65536 && Pow2(24) == 16777216 && Pow2(32) == WORD
  {
    assert Pow2(2) == 4 && Pow2(4) == 16 by { assert Pow2(1) == 2; assert Pow2(3) == 8; }
    Pow2Add(4, 1);
    Pow2Add(4, 4);
    Pow2Add(8, 8);
    Pow2Add(16, 8);
    Pow2Add(16, 16);
    assert Pow2(1) == 2;
  }

  /* ------------------------------------------------------- the alphabet */

  const B32_ALPHABET := "ABCDEFGHIJKLMNOPQRSTUVWXYZ234567"

  function IndexOf(s: string, c: char): (i: int)
    ensures -1 <= i < |s|
    ensures i >= 0 ==> s[i] == c
    ensures forall j :: 0 <= j < (if i < 0 then |s| else i) ==> s[j] != c
  {
    if s == "" then -1
    else if s[0] == c then 0
    else
      var i := IndexOf(s[1..], c);
      assert forall j :: 1 <= j < |s| ==> s[j] == s[1..][j - 1];
      if i < 0 then -1 else i + 1
  }

  lemma AlphabetAt(i: nat)
    requires i < 32
    ensures |B32_ALPHABET| == 32
    ensures B32_ALPHABET[i] as int == if i < 26 then 'A' as int + i else '2' as int + (i - 26)
  {}

  lemma LetterIndex(v: nat)
    requires v < |B32_ALPHABET|
    ensures IndexOf(B32_ALPHABET, B32_ALPHABET[v]) == v
  {
    var i := IndexOf(B32_ALPHABET, B32_ALPHABET[v]);
    AlphabetAt(v);
    AlphabetAt(i);
  }

  function Letters(digits: seq<nat>): (r: string)
    requires forall i :: 0 <= i < |digits| ==> digits[i] < 32
    ensures |r| == |digits| && forall i :: 0 <= i < |r| ==> r[i] == B32_ALPHABET[digits[i]]
  {
    seq(|digits|, i requires 0 <= i < |digits| => B32_ALPHABET[digits[i]])
  }

  /** Section 6 of RFC 4648 without padding, on bit strings. */
  function Encoding(bytes: seq<Byte>): string {
    Letters(Quintets(BitString(bytes)))
  }

  function UpperChar(c: char): char {
    if 'a' <= c <= 'z' then (c as int - 'a' as int + 'A' as int) as char else c
  }

  /** Without white space and `=`, in upper case. */
  function Cleaned(s: string): string {
    if s == "" then ""
    else
      var init, c := Cleaned(s[..|s| - 1]), s[|s| - 1];
      if IsSpace(c) || c == '=' then init else init + [UpperChar(c)]
  }

  datatype Decoded = Bytes(value: seq<Byte>) | Invalid(ch: char)

  predicate Valid(clean: string) {
    forall i :: 0 <= i < |clean| ==> clean[i] in B32_ALPHABET
  }

  /** The leftmost character outside the alphabet. */
  function FirstInvalid(clean: string): (c: char)
    requires !Valid(clean)
    ensures c !in B32_ALPHABET
  {
    if clean[0] !in B32_ALPHABET then clean[0] else FirstInvalid(clean[1..])
  }

  function DigitBits(clean: string): (r: seq<bool>)
    requires Valid(clean)
    ensures |r| == 5 * |clean|
  {
    if clean == "" then []
    else
      assert clean[|clean| - 1] in B32_ALPHABET;
      DigitBits(clean[..|clean| - 1]) + BitsOf(IndexOf(B32_ALPHABET, clean[|clean| - 1]), 5)
  }

  function Decoding(s: string): Decoded {
    var clean := Cleaned(s);
    if Valid(clean) then Bytes(Octets(DigitBits(clean))) else Invalid(FirstInvalid(clean))
  }

  /* --------------------------------------------- the accumulator's words */

  /** `(value << k) | y` */
  function OrShift(value: int, k: nat, y: nat): int {
    Signed(Word(Or(Shl(value, k), y)))
  }

  /** `value >>> k` */
  function Right(value: int, k: nat): int {
    Word(value) / Pow2(k)
  }

  lemma Grows(n: int, d: int)
    requires n >= 1 && d >= 0
    ensures n * d >= d && (-n) * d <= -d
  {}

  lemma Residue(x: int, m: int, c: int, d: int)
    requires 0 <= m < d && x == m + c * d
    ensures x % d == m && x / d == c
  {
    var q, r := x / d, x % d;
    assert (q - c) * d == m - r;
    if q - c >= 1 { Grows(q - c, d); }
    if q - c <= -1 { Grows(c - q, d); }
  }

  lemma DivMod(value: int, b: nat) returns (q: int, r: nat)
    requires b >= 1
    ensures value == q * b + r && q == value / b && r == value % b && r < b
  {
    q, r := value / b, value % b;
  }

  lemma Distribute(a: int, b: int, c: int)
    ensures (a + b) * c == a * c + b * c
  {}

  lemma Associate(a: int, b: int, c: int)
    ensures (a * b) * c == a * (b * c)
  {}

  lemma ShlResidue(value: int, k: nat)
    ensures Shl(value, k) == (value * Pow2(k)) % WORD
  {
    hide Pow2;
  }

  lemma ShlIs(value: int, k: nat) returns (u: int, x: nat)
    requires k <= 32
    ensures Shl(value, k) == x * Pow2(k) == value * Pow2(k) - u * WORD
  {
    hide *;
    var p, rest := Pow2(k), Pow2(32 - k);
    Powers();
    Pow2Add(32 - k, k);
    ShlResidue(value, k);
    var q, r := DivMod(value * p, WORD);
    Associate(q, rest, p);
    Distribute(value, -(q * rest), p);
    var d := value - q * rest;
    if d < 0 { Grows(-d, p); }
    u, x := q, d;
  }

  lemma OrShiftIs(value: int, k: nat, y: nat, x: nat)
    requires Shl(value, k) == x * Pow2(k) && y < Pow2(k)
    ensures OrShift(value, k, y) == Signed(Word(x * Pow2(k) + y))
  {
    hide Or, Shl, Pow2;
    OrIntoZeros(x, y, k);
  }

  lemma SignedOf(w: nat)
    requires w < WORD
    ensures Signed(Word(w)) == w || Signed(Word(w)) == w - WORD
  {}

  lemma ShlBound(value: int, k: nat)
    ensures Shl(value, k) < WORD
  {}

  /** A left shift and the signed reading keep the number up to multiples of the word. */
  lemma ShiftedWord(value: int, k: nat, y: nat) returns (t: int)
    requires k <= 32 && y < Pow2(k)
    ensures OrShift(value, k, y) == value * Pow2(k) + y + t * WORD
  {
    hide *;
    var u, x := ShlIs(value, k);
    var p, rest := Pow2(k), Pow2(32 - k);
    Powers();
    Pow2Add(k, 32 - k);
    ShlBound(value, k);
    ShlRoom(x, p, rest, y);
    OrShiftIs(value, k, y, x);
    var w := x * p + y;
    SignedOf(w);
    t := if Signed(Word(w)) == w then -u else -u - 1;
  }

  lemma ShlRoom(x: nat, p: nat, rest: nat, y: nat)
    requires p * rest == WORD && x * p < WORD && y < p
    ensures x * p + y < WORD
  {
    if x >= rest { MulMonotone(rest, x, p); } else { MulMonotone(x + 1, rest, p); }
  }

  lemma MulMonotone(a: nat, b: nat, p: nat)
    requires a <= b
    ensures a * p <= b * p
  {}

  lemma Regroup(q: int, b: int, r: int, p: int, y: int, t: int, rest: int, word: int)
    requires word == rest * (b * p)
    ensures (q * b + r) * p + y + t * word == (r * p + y) + (q + t * rest) * (b * p)
  {
    Distribute(q * b, r, p);
    Associate(q, b, p);
    Associate(t, rest, b * p);
    Distribute(q, t * rest, b * p);
  }

  /** The pending low bits after `(value << k) | y`: the upper bits never disturb them. */
  lemma ShiftIn(value: int, bits: nat, k: nat, y: nat)
    requires bits + k <= 32 && y < Pow2(k)
    ensures OrShift(value, k, y) % Pow2(bits + k) == (value % Pow2(bits)) * Pow2(k) + y
  {
    var t := ShiftedWord(value, k, y);
    var b, p, rest := Pow2(bits), Pow2(k), Pow2(32 - bits - k);
    Powers();
    Pow2Add(bits, k);
    Pow2Add(32 - bits - k, bits + k);
    hide *;
    var q, r := DivMod(value, b);
    ShiftInAlgebra(q, b, r, p, y, t, rest, WORD);
  }

  lemma ShiftInAlgebra(q: int, b: nat, r: nat, p: nat, y: nat, t: int, rest: int, word: int)
    requires word == rest * (b * p) && r < b && y < p
    ensures ((q * b + r) * p + y + t * word) % (b * p) == r * p + y
  {
    Regroup(q, b, r, p, y, t, rest, word);
    Below(r, b, p, y);
    Residue((q * b + r) * p + y + t * word, r * p + y, q + t * rest, b * p);
  }

  lemma Below(r: nat, b: nat, p: nat, y: nat)
    requires r < b && y < p
    ensures 0 <= r * p + y < b * p
  {
    MulMonotone(r + 1, b, p);
    Distribute(r, 1, p);
  }

  /** Reading a window of the pending bits with `>>>`. */
  lemma ShiftOut(value: int, j: nat, width: nat)
    requires j + width <= 32
    ensures Right(value, j) % Pow2(width) == (value % Pow2(j + width)) / Pow2(j)
  {
    var a, p, rest := Pow2(j), Pow2(width), Pow2(32 - j - width);
    Powers();
    Pow2Add(width, j);
    Pow2Add(32 - j - width, j + width);
    assert Word(value) == value - value / WORD * WORD;
    hide *;
    Positive(p, a);
    var q, r := DivMod(value, p * a);
    WindowAlgebra(value, r, q, value / WORD, a, p, rest, Word(value));
  }

  lemma Positive(p: nat, a: nat)
    requires p >= 1 && a >= 1
    ensures p * a >= 1
  {}

  lemma WindowAlgebra(value: int, r: int, q: int, t: int, a: nat, p: nat, rest: int, word: int)
    requires a >= 1 && p >= 1 && 0 <= r < p * a && value == q * (p * a) + r
    requires word == value - t * (rest * (p * a))
    ensures (word / a) % p == r / a
  {
    var c, m, l := q - t * rest, r / a, r % a;
    Associate(t, rest, p * a);
    Distribute(q, -(t * rest), p * a);
    Associate(c, p, a);
    Distribute(m, c * p, a);
    assert word == l + (m + c * p) * a;
    Residue(word, l, m + c * p, a);
    Quotient(r, a, p);
    Residue(m + c * p, m, c, p);
  }

  lemma Quotient(r: int, a: nat, p: nat)
    requires a >= 1 && 0 <= r < p * a
    ensures 0 <= r / a < p
  {
    if r / a >= p { MulMonotone(p, r / a, a); }
  }

  /** Or-ing in `k` more bits appends them to the pending ones. */
  lemma PendingIn(pending: seq<bool>, value: int, k: nat, y: nat)
    requires |pending| + k <= 32 && y < Pow2(k) && value % Pow2(|pending|) == Value(pending)
    ensures OrShift(value, k, y) % Pow2(|pending| + k) == Value(pending + BitsOf(y, k))
  {
    hide OrShift, Pow2, Value, BitsOf;
    ShiftIn(value, |pending|, k, y);
    ValueConcat(pending, BitsOf(y, k));
    ValueOfBits(y, k);
  }

  /** Taking the oldest `width` pending bits leaves the others in place. */
  lemma PendingOut(pending: seq<bool>, value: int, width: nat)
    requires width <= |pending| <= 32 && value % Pow2(|pending|) == Value(pending)
    ensures Right(value, |pending| - width) % Pow2(width) == Value(pending[..width])
    ensures value % Pow2(|pending| - width) == Value(pending[width..])
  {
    hide Right, Pow2, Value;
    var j := |pending| - width;
    var a, b := pending[..width], pending[width..];
    assert pending == a + b;
    ValueConcat(a, b);
    ValueBound(b);
    ShiftOut(value, j, width);
    Pow2Add(width, j);
    OutAlgebra(value, Value(a), Value(b), Pow2(width), Pow2(j));
  }

  lemma OutAlgebra(value: int, a: nat, b: nat, p: nat, d: nat)
    requires p >= 1 && d >= 1 && p * d >= 1 && b < d && value % (p * d) == a * d + b
    ensures (value % (p * d)) / d == a && value % d == b
  {
    Residue(a * d + b, b, a, d);
    var q, r := DivMod(value, p * d);
    Associate(q, p, d);
    Distribute(q * p, a, d);
    Residue(value, b, q * p + a, d);
  }

  /* ------------------------------------------------------------ grouping */

  lemma {:induction false} QuintetsAppend(a: seq<bool>, b: seq<bool>)
    requires |a| % 5 == 0
    ensures Quintets(a + b) == Quintets(a) + Quintets(b)
    decreases |a|
  {
    hide *;
    if a == [] {
      assert a + b == b;
      QuintetStep(a);
    } else {
      QuintetStep(a);
      QuintetStep(a + b);
      assert (a + b)[..5] == a[..5] && (a + b)[5..] == a[5..] + b;
      QuintetsAppend(a[5..], b);
    }
  }

  lemma QuintetStep(a: seq<bool>)
    ensures a == [] ==> Quintets(a) == []
    ensures |a| >= 5 ==> Quintets(a) == [Value(a[..5])] + Quintets(a[5..])
  {
    hide Value;
  }

  lemma {:induction false} OctetsAppend(a: seq<bool>, b: seq<bool>)
    requires |a| % 8 == 0
    ensures Octets(a + b) == Octets(a) + Octets(b)
    decreases |a|
  {
    hide *;
    if a == [] {
      assert a + b == b;
      OctetStep(a);
    } else {
      OctetStep(a);
      OctetStep(a + b);
      assert (a + b)[..8] == a[..8] && (a + b)[8..] == a[8..] + b;
      OctetsAppend(a[8..], b);
    }
  }

  lemma OctetStep(a: seq<bool>)
    ensures a == [] ==> Octets(a) == []
    ensures |a| >= 8 ==> Octets(a) == [Value(a[..8])] + Octets(a[8..])
  {
    hide Value;
  }

  lemma OneQuintet(g: seq<bool>)
    requires |g| == 5
    ensures Quintets(g) == [Value(g)]
  {
    assert g[..5] == g;
  }

  lemma OneOctet(g: seq<bool>)
    requires |g| == 8
    ensures Octets(g) == [Value(g)]
  {
    assert g[..8] == g;
  }

  lemma LettersAppend(a: seq<nat>, b: seq<nat>)
    requires (forall i :: 0 <= i < |a| ==> a[i] < 32) && (forall i :: 0 <= i < |b| ==> b[i] < 32)
    ensures Letters(a + b) == Letters(a) + Letters(b)
  {}

  lemma OutStep(done: seq<bool>, group: seq<bool>)
    requires |done| % 5 == 0 && |group| == 5
    ensures Value(group) < 32
    ensures Letters(Quintets(done + group)) == Letters(Quintets(done)) + [B32_ALPHABET[Value(group)]]
  {
    hide Quintets, Value;
    QuintetsAppend(done, group);
    OneQuintet(group);
    assert Quintets(group)[0] < 32;
    LettersAppend(Quintets(done), Quintets(group));
  }

  /* --------------------------------------------------------- the methods */

  /** The bits read so far are those written out and those pending in the accumulator. */
  ghost predicate Encoded(all: seq<bool>, done: seq<bool>, pending: seq<bool>, out: string, bits: int, value: int) {
    all == done + pending && |done| % 5 == 0 && out == Letters(Quintets(done)) &&
    bits == |pending| <= 12 && value % Pow2(bits) == Value(pending)
  }

  lemma EncodeByte(all: seq<bool>, done: seq<bool>, pending: seq<bool>, out: string, bits: nat, value: int, byte: Byte)
    requires Encoded(all, done, pending, out, bits, value) && bits < 5
    ensures Encoded(all + BitsOf(byte, 8), done, pending + BitsOf(byte, 8), out, bits + 8, OrShift(value, 8, byte))
  {
    hide OrShift, Value, BitsOf, Quintets, Letters;
    Powers();
    PendingIn(pending, value, 8, byte);
  }

  lemma EncodeLetter(all: seq<bool>, done: seq<bool>, pending: seq<bool>, out: string, bits: nat, value: int)
    requires Encoded(all, done, pending, out, bits, value) && bits >= 5
    ensures Encoded(all, done + pending[..5], pending[5..], out + [B32_ALPHABET[Right(value, bits - 5) % 32]],
                    bits - 5, value)
  {
    hide Right, Value, Quintets, Letters;
    Powers();
    PendingOut(pending, value, 5);
    OutStep(done, pending[..5]);
  }

  method Base32Encode(buf: seq<Byte>) returns (out: string)
    ensures out == Encoding(buf)
  {
    hide OrShift, Right, Encoded, Letters, Quintets;
    var bits: nat, value: int := 0, 0;
    out := "";
    ghost var done: seq<bool>, pending: seq<bool> := [], [];
    NothingEncoded();
    for i := 0 to |buf|
      invariant bits == |pending| < 5 && Encoded(BitString(buf[..i]), done, pending, out, bits, value)
    {
      var byte := buf[i];
      assert buf[..i + 1][..i] == buf[..i];
      EncodeByte(BitString(buf[..i]), done, pending, out, bits, value, byte);
      value := OrShift(value, 8, byte);
      bits := bits + 8;
      pending := pending + BitsOf(byte, 8);
      while bits >= 5
        invariant bits == |pending| && Encoded(BitString(buf[..i + 1]), done, pending, out, bits, value)
      {
        EncodeLetter(BitString(buf[..i + 1]), done, pending, out, bits, value);
        out := out + [B32_ALPHABET[Right(value, bits - 5) % 32]];
        bits := bits - 5;
        done, pending := done + pending[..5], pending[5..];
      }
    }
    assert buf[..|buf|] == buf;
    EncodeRest(BitString(buf), done, pending, out, bits, value);
    if bits > 0 { out := out + [B32_ALPHABET[Signed(Shl(value, 5 - bits)) % 32]]; }
  }

  lemma NothingEncoded()
    ensures Encoded([], [], [], "", 0, 0)
  {
    EmptyCode();
  }

  lemma EncodeRest(all: seq<bool>, done: seq<bool>, pending: seq<bool>, out: string, bits: nat, value: int)
    requires Encoded(all, done, pending, out, bits, value) && bits < 5
    ensures Letters(Quintets(all)) ==
            if bits > 0 then out + [B32_ALPHABET[Signed(Shl(value, 5 - bits)) % 32]] else out
  {
    LastGroup(done, pending, value);
  }

  lemma EmptyCode()
    ensures Letters(Quintets([])) == "" && Value([]) == 0 && Pow2(0) == 1 && BitString([]) == []
  {}

  lemma LastGroup(done: seq<bool>, pending: seq<bool>, value: int)
    requires |done| % 5 == 0 && |pending| < 5 && value % Pow2(|pending|) == Value(pending)
    ensures Letters(Quintets(done + pending)) ==
            Letters(Quintets(done)) +
            (if pending == [] then "" else [B32_ALPHABET[Signed(Shl(value, 5 - |pending|)) % 32]])
  {
    hide *;
    if pending == [] {
      assert done + pending == done;
    } else {
      var k := 5 - |pending|;
      Powers();
      PendingIn(pending, value, k, 0);
      OrNothing(value, k);
      ZeroBits(k);
      QuintetsAppend(done, pending);
      LettersAppend(Quintets(done), Quintets(pending));
      ShortQuintet(pending);
      ValueBound(pending + Repeat(false, k));
      OneLetter(Value(pending + Repeat(false, k)));
    }
  }

  lemma OrNothing(value: int, k: nat)
    ensures OrShift(value, k, 0) == Signed(Shl(value, k))
  {
    hide Shl, Signed;
  }

  lemma ShortQuintet(p: seq<bool>)
    requires 0 < |p| < 5
    ensures Quintets(p) == [Value(p + Repeat(false, 5 - |p|))]
  {}

  lemma {:induction false} ZeroBits(k: nat)
    ensures BitsOf(0, k) == Repeat(false, k)
  {
    if k > 0 { ZeroBits(k - 1); }
  }

  ghost predicate DecodedSoFar(all: seq<bool>, done: seq<bool>, pending: seq<bool>, bytes: seq<Byte>, bits: int,
                               value: int) {
    all == done + pending && |done| % 8 == 0 && bytes == Octets(done) &&
    bits == |pending| <= 12 && value % Pow2(bits) == Value(pending)
  }

  lemma DecodeLetter(all: seq<bool>, done: seq<bool>, pending: seq<bool>, bytes: seq<Byte>, bits: nat, value: int,
                     idx: nat)
    requires DecodedSoFar(all, done, pending, bytes, bits, value) && bits < 8 && idx < 32
    ensures DecodedSoFar(all + BitsOf(idx, 5), done, pending + BitsOf(idx, 5), bytes, bits + 5, OrShift(value, 5, idx))
  {
    hide OrShift, Value, BitsOf, Octets;
    Powers();
    PendingIn(pending, value, 5, idx);
  }

  lemma DecodeByte(all: seq<bool>, done: seq<bool>, pending: seq<bool>, bytes: seq<Byte>, bits: nat, value: int)
    requires DecodedSoFar(all, done, pending, bytes, bits, value) && bits >= 8
    ensures DecodedSoFar(all, done + pending[..8], pending[8..], bytes + [Right(value, bits - 8) % 256], bits - 8,
                         value)
  {
    hide Right, Value, Octets;
    Powers();
    PendingOut(pending, value, 8);
    OctetsAppend(done, pending[..8]);
    OneOctet(pending[..8]);
  }

  lemma DecodeRest(all: seq<bool>, done: seq<bool>, pending: seq<bool>, bytes: seq<Byte>, bits: nat, value: int)
    requires DecodedSoFar(all, done, pending, bytes, bits, value) && bits < 8
    ensures bytes == Octets(all)
  {
    OctetsAppend(done, pending);
  }

  method Base32Decode(s: string) returns (r: Decoded)
    ensures r == Decoding(s)
  {
    hide OrShift, Right, DecodedSoFar, BitsOf, Octets, IndexOf, FirstInvalid, Cleaned, DigitBits, Valid;
    var clean := Cleaned(s);
    var bits: nat, value: int := 0, 0;
    var bytes: seq<Byte> := [];
    ghost var done: seq<bool>, pending: seq<bool> := [], [];
    NothingDecoded();
    for i := 0 to |clean|
      invariant Valid(clean[..i]) && bits == |pending| < 8
      invariant DecodedSoFar(DigitBits(clean[..i]), done, pending, bytes, bits, value)
    {
      assert clean[..i + 1][..i] == clean[..i];
      var idx := IndexOf(B32_ALPHABET, clean[i]);
      if idx < 0 {
        FirstInvalidAt(clean, i);
        return Invalid(clean[i]);
      }
      ValidStep(clean, i);
      DecodeLetter(DigitBits(clean[..i]), done, pending, bytes, bits, value, idx);
      value := OrShift(value, 5, idx);
      bits := bits + 5;
      pending := pending + BitsOf(idx, 5);
      if bits >= 8 {
        DecodeByte(DigitBits(clean[..i + 1]), done, pending, bytes, bits, value);
        bytes := bytes + [Right(value, bits - 8) % 256];
        bits := bits - 8;
        done, pending := done + pending[..8], pending[8..];
      }
    }
    assert clean[..|clean|] == clean;
    DecodeRest(DigitBits(clean), done, pending, bytes, bits, value);
    r := Bytes(bytes);
  }

  lemma ValidStep(clean: string, i: nat)
    requires i < |clean| && Valid(clean[..i]) && clean[i] in B32_ALPHABET
    ensures Valid(clean[..i + 1])
    ensures DigitBits(clean[..i + 1]) == DigitBits(clean[..i]) + BitsOf(IndexOf(B32_ALPHABET, clean[i]), 5)
  {
    assert clean[..i + 1][..i] == clean[..i];
  }

  lemma NothingDecoded()
    ensures Valid("") && DigitBits("") == [] && DecodedSoFar([], [], [], [], 0, 0)
  {
    NoOctets();
  }

  lemma NoOctets()
    ensures Octets([]) == [] && BitString([]) == [] && Value([]) == 0 && Pow2(0) == 1 && DigitBits("") == []
  {}

  lemma {:induction false} FirstInvalidAt(clean: string, i: nat)
    requires i < |clean| && Valid(clean[..i]) && clean[i] !in B32_ALPHABET
    ensures !Valid(clean) && FirstInvalid(clean) == clean[i]
  {
    if i > 0 {
      assert clean[0] == clean[..i][0];
      assert clean[1..][..i - 1] == clean[..i][1..];
      FirstInvalidAt(clean[1..], i - 1);
    }
  }

  /* -------------------------------------------------------- the round trip */

  lemma {:induction false} LettersAreClean(s: string)
    requires Valid(s)
    ensures Cleaned(s) == s
  {
    if s != "" {
      var init, c := s[..|s| - 1], s[|s| - 1];
      LettersAreClean(init);
      LetterIsPlain(c);
      assert s == init + [c];
    }
  }

  lemma LetterIsPlain(c: char)
    requires c in B32_ALPHABET
    ensures !IsSpace(c) && c != '=' && UpperChar(c) == c
  {
    var i :| 0 <= i < |B32_ALPHABET| && B32_ALPHABET[i] == c;
    AlphabetAt(i);
  }

  lemma ValidAt(t: string, i: nat)
    requires Valid(t) && i < |t|
    ensures var v := IndexOf(B32_ALPHABET, t[i]); 0 <= v < 32 && B32_ALPHABET[v] == t[i]
  {
    assert t[i] in B32_ALPHABET;
  }

  lemma ValidAppend(a: string, b: string)
    requires Valid(a) && Valid(b)
    ensures Valid(a + b)
  {}

  lemma DigitBitsLast(t: string)
    requires Valid(t) && t != ""
    ensures Valid(t[..|t| - 1])
    ensures DigitBits(t) == DigitBits(t[..|t| - 1]) + BitsOf(IndexOf(B32_ALPHABET, t[|t| - 1]), 5)
  {
    hide B32_ALPHABET, BitsOf, IndexOf;
    assert t[|t| - 1] in B32_ALPHABET;
  }

  lemma {:induction false} DigitBitsAppend(a: string, b: string)
    requires Valid(a) && Valid(b)
    ensures Valid(a + b) && DigitBits(a + b) == DigitBits(a) + DigitBits(b)
  {
    hide *;
    NoLetters();
    if b == "" {
      assert a + b == a;
    } else {
      var n := |b| - 1;
      ValidAppend(a, b);
      DigitBitsLast(a + b);
      DigitBitsLast(b);
      DigitBitsAppend(a, b[..n]);
      assert (a + b)[..|a + b| - 1] == a + b[..n];
    }
  }

  lemma LetterBits(v: nat)
    requires v < 32
    ensures Valid([B32_ALPHABET[v]]) && DigitBits([B32_ALPHABET[v]]) == BitsOf(v, 5)
  {
    hide IndexOf;
    var t := [B32_ALPHABET[v]];
    assert t[..0] == "" && t[0] in B32_ALPHABET;
    LetterIndex(v);
  }

  /** The first group of five, filled up when the bits run out, and the bits behind it. */
  lemma FirstGroup(bits: seq<bool>) returns (g: seq<bool>, rest: seq<bool>)
    requires bits != []
    ensures |g| == 5 && Value(g) < 32 && |rest| == (if |bits| < 5 then 0 else |bits| - 5)
    ensures Quintets(bits) == [Value(g)] + Quintets(rest)
    ensures g + rest == bits + Repeat(false, if |bits| < 5 then 5 - |bits| else 0)
  {
    hide Value;
    g := if |bits| < 5 then bits + Repeat(false, 5 - |bits|) else bits[..5];
    rest := if |bits| < 5 then [] else bits[5..];
    ValueBound(g);
    Powers();
  }

  lemma ZerosAppend(g: seq<bool>, rest: seq<bool>, bits: seq<bool>, m: nat, n: nat)
    requires g + rest == bits + Repeat(false, m) && (m == 0 || rest == [])
    ensures g + (rest + Repeat(false, n)) == bits + Repeat(false, m + n)
  {
    assert Repeat(false, m) + Repeat(false, n) == Repeat(false, m + n);
    assert g + (rest + Repeat(false, n)) == (g + rest) + Repeat(false, n);
    assert bits + Repeat(false, m) + Repeat(false, n) == bits + (Repeat(false, m) + Repeat(false, n));
  }

  /** Reading the letters back gives the bits and the fill. */
  lemma {:induction false} BitsOfLetters(bits: seq<bool>)
    ensures var t := Letters(Quintets(bits));
            Valid(t) && DigitBits(t) == bits + Repeat(false, 5 * |t| - |bits|)
    decreases |bits|
  {
    hide *;
    NoLetters();
    if bits == [] {
      assert [] + Repeat(false, 0) == [];
    } else {
      var g, rest := FirstGroup(bits);
      BitsOfLetters(rest);
      BitsOfValue(g);
      LetterBits(Value(g));
      OneLetter(Value(g));
      LettersAppend([Value(g)], Quintets(rest));
      DigitBitsAppend(Letters([Value(g)]), Letters(Quintets(rest)));
      ZerosAppend(g, rest, bits, if |bits| < 5 then 5 - |bits| else 0, 5 * |Letters(Quintets(rest))| - |rest|);
    }
  }

  lemma NoLetters()
    ensures Letters(Quintets([])) == "" && Valid("") && DigitBits("") == []
  {}

  lemma OneLetter(v: nat)
    requires v < 32
    ensures Letters([v]) == [B32_ALPHABET[v]]
  {}

  /** Grouping the bits of some letters gives the letters back. */
  lemma {:induction false} LettersOfBits(t: string)
    requires Valid(t)
    ensures Letters(Quintets(DigitBits(t))) == t
  {
    hide *;
    NoLetters();
    if t != "" {
      var n := |t| - 1;
      var init, c := t[..n], t[n];
      DigitBitsLast(t);
      LettersOfBits(init);
      var v := IndexOf(B32_ALPHABET, c);
      Powers();
      ValidAt(t, n);
      ValueOfBits(v, 5);
      OutStep(DigitBits(init), BitsOf(v, 5));
      assert t == init + [c];
    }
  }

  /** The octets of a bit string whose tail is less than an octet. */
  lemma OctetsOfString(bytes: seq<Byte>, tail: seq<bool>)
    requires |tail| < 8
    ensures Octets(BitString(bytes) + tail) == bytes
  {
    hide *;
    OctetsAppend(BitString(bytes), tail);
    OctetsOfBytes(bytes);
    NoWholeOctet(tail);
    assert bytes + [] == bytes;
  }

  lemma NoWholeOctet(tail: seq<bool>)
    requires |tail| < 8
    ensures Octets(tail) == []
  {}

  lemma {:induction false} OctetsOfBytes(bytes: seq<Byte>)
    ensures Octets(BitString(bytes)) == bytes
  {
    hide Octets, Value, BitsOf;
    if bytes == [] {
      NoOctets();
    } else {
      var n := |bytes| - 1;
      var init, byte := bytes[..n], bytes[n];
      OctetsOfBytes(init);
      Powers();
      OctetsAppend(BitString(init), BitsOf(byte, 8));
      OneOctet(BitsOf(byte, 8));
      ValueOfBits(byte, 8);
      assert bytes == init + [byte];
    }
  }

  lemma {:induction false} StringOfOctets(bits: seq<bool>)
    ensures BitString(Octets(bits)) == bits[..8 * (|bits| / 8)]
    decreases |bits|
  {
    hide *;
    if |bits| < 8 {
      NoWholeOctet(bits);
      NoOctets();
    } else {
      var g, rest := bits[..8], bits[8..];
      StringOfOctets(rest);
      BitsOfValue(g);
      ValueBound(g);
      Powers();
      OctetStep(bits);
      BitStringCons(Value(g), Octets(rest));
      WholeBehind(bits);
    }
  }

  lemma WholeBehind(bits: seq<bool>)
    requires |bits| >= 8
    ensures var rest := bits[8..]; bits[..8] + rest[..8 * (|rest| / 8)] == bits[..8 * (|bits| / 8)]
  {
    assert (|bits| - 8) / 8 == |bits| / 8 - 1;
  }

  lemma {:induction false} BitStringCons(b: Byte, bytes: seq<Byte>)
    ensures BitString([b] + bytes) == BitsOf(b, 8) + BitString(bytes)
  {
    hide BitsOf;
    var all := [b] + bytes;
    var n := |all| - 1;
    if bytes == [] {
      assert all[..n] == [];
    } else {
      assert all[..n] == [b] + bytes[..|bytes| - 1];
      BitStringCons(b, bytes[..|bytes| - 1]);
    }
  }

  /** Decoding undoes encoding, whatever case the letters are read in; the length is
      the ceiling of 8n/5. */
  lemma RoundTrip(bytes: seq<Byte>)
    ensures Decoding(Encoding(bytes)) == Bytes(bytes)
    ensures Decoding(Lower(Encoding(bytes))) == Bytes(bytes)
    ensures |Encoding(bytes)| == (8 * |bytes| + 4) / 5
  {
    hide Quintets, Octets, Letters, DigitBits, BitString, Cleaned, Lower;
    var bits, t := BitString(bytes), Encoding(bytes);
    BitsOfLetters(bits);
    OctetsOfString(bytes, Repeat(false, 5 * |t| - |bits|));
    LettersAreClean(t);
    CaseIrrelevant(t);
  }

  lemma {:induction false} CaseIrrelevant(s: string)
    ensures Cleaned(Lower(s)) == Cleaned(s)
  {
    if s != "" {
      var n := |s| - 1;
      CaseIrrelevant(s[..n]);
      assert Lower(s)[..n] == Lower(s[..n]);
    }
  }

  /** White space and padding may stand anywhere. */
  lemma {:induction false} SpacingIrrelevant(a: string, c: char, b: string)
    requires IsSpace(c) || c == '='
    ensures Decoding(a + [c] + b) == Decoding(a + b)
  {
    CleanedAppend(a + [c], b);
    CleanedAppend(a, b);
    assert (a + [c])[..|a|] == a;
  }

  lemma {:induction false} CleanedAppend(a: string, b: string)
    ensures Cleaned(a + b) == Cleaned(a) + Cleaned(b)
  {
    if b == "" {
      assert a + b == a;
    } else {
      var n := |b| - 1;
      CleanedAppend(a, b[..n]);
      assert (a + b)[..|a + b| - 1] == a + b[..n];
    }
  }

  /** The bits a text carries beyond its last whole octet. */
  function Leftover(clean: string): seq<bool>
    requires Valid(clean)
  {
    hide Valid, DigitBits, B32_ALPHABET;
    var all := DigitBits(clean);
    all[8 * (|all| / 8)..]
  }

  /** A text is the encoding of what it decodes to exactly when the bits decoding drops
      are fewer than a letter's and all zero: only such texts are a normal form. */
  lemma ReencodesIff(s: string)
    requires Decoding(s).Bytes?
    ensures Valid(Cleaned(s))
    ensures Encoding(Decoding(s).value) == Cleaned(s) <==>
            |Leftover(Cleaned(s))| < 5 && Leftover(Cleaned(s)) == Repeat(false, |Leftover(Cleaned(s))|)
  {
    hide Quintets, Octets, Letters, DigitBits, BitString, Cleaned, FirstInvalid, Valid;
    assert Valid(Cleaned(s)) && Decoding(s).value == Octets(DigitBits(Cleaned(s))) by { DecodingValid(s); }
    var c := Cleaned(s);
    var all, left := DigitBits(c), Leftover(c);
    StringOfOctets(all);
    var kept := all[..8 * (|all| / 8)];
    var t := Letters(Quintets(kept));
    assert all == kept + left;
    BitsOfLetters(kept);
    LettersOfBits(c);
    LettersOfBits(t);
    var fill := 5 * |t| - |kept|;
    if |left| < 5 && left == Repeat(false, |left|) {
      assert |t| == |c|;
      assert DigitBits(t) == all;
    } else if t == c {
      SameTail(kept, Repeat(false, fill), left);
    }
  }

  lemma SameTail(a: seq<bool>, b: seq<bool>, c: seq<bool>)
    requires a + b == a + c
    ensures b == c
  {
    assert (a + b)[|a|..] == b && (a + c)[|a|..] == c;
  }

  lemma DecodingValid(s: string)
    requires Decoding(s).Bytes?
    ensures Valid(Cleaned(s)) && Decoding(s).value == Octets(DigitBits(Cleaned(s)))
  {}

  /** Decoding fails on the leftmost character outside the alphabet, and only then. */
  lemma FailsIff(s: string, c: char)
    ensures Decoding(s) == Invalid(c) <==>
            exists i :: 0 <= i < |Cleaned(s)| && Cleaned(s)[i] == c && c !in B32_ALPHABET && Valid(Cleaned(s)[..i])
  {
    var clean := Cleaned(s);
    if !Valid(clean) {
      var i := InvalidAt(clean);
      forall j | 0 <= j < |clean| && clean[j] !in B32_ALPHABET && Valid(clean[..j]) ensures clean[j] == clean[i] {
        FirstInvalidAt(clean, j);
      }
    }
  }

  lemma {:induction false} InvalidAt(clean: string) returns (i: nat)
    requires !Valid(clean)
    ensures i < |clean| && clean[i] !in B32_ALPHABET && Valid(clean[..i]) && FirstInvalid(clean) == clean[i]
  {
    if clean[0] !in B32_ALPHABET {
      i := 0;
    } else {
      assert !Valid(clean[1..]) by {
        var j :| 0 <= j < |clean| && clean[j] !in B32_ALPHABET;
        assert clean[1..][j - 1] == clean[j];
      }
      var k := InvalidAt(clean[1..]);
      i := k + 1;
      forall j | 0 <= j < i ensures clean[..i][j] in B32_ALPHABET {
        if j > 0 { assert clean[1..][..k][j - 1] == clean[..i][j]; }
      }
    }
  }

  /* ----------------------------------------------------------------- HOTP */

  type Digest = d: seq<Byte> | |d| == 20 witness seq(20, _ => 0)

  /** `writeUInt32BE`, which throws outside 32 bits. */
  function WriteUInt32(n: int): Option<seq<Byte>> {
    if 0 <= n < WORD then Some([n / 16777216 % 256, n / 65536 % 256, n / 256 % 256, n % 256]) else None
  }

  function CounterBytes(counter: int): Option<seq<Byte>> {
    var high, low := WriteUInt32(counter / WORD), WriteUInt32(Word(counter));
    if high.None? || low.None? then None else Some(high.value + low.value)
  }

  /** The number the bytes denote, most significant first. */
  function Number(bytes: seq<Byte>): nat {
    if bytes == [] then 0 else 256 * Number(bytes[..|bytes| - 1]) + bytes[|bytes| - 1]
  }

  lemma NumberOfFour(prefix: seq<Byte>, a: Byte, b: Byte, c: Byte, d: Byte)
    ensures Number(prefix + [a, b, c, d]) == Number(prefix) * WORD + a * 16777216 + b * 65536 + c * 256 + d
  {
    var s4, s3, s2, s1 := prefix + [a, b, c, d], prefix + [a, b, c], prefix + [a, b], prefix + [a];
    assert s4[..|s4| - 1] == s3 && s3[..|s3| - 1] == s2 && s2[..|s2| - 1] == s1 && s1[..|s1| - 1] == prefix;
    assert Number(s1) == 256 * Number(prefix) + a;
    assert Number(s2) == 256 * Number(s1) + b;
    assert Number(s3) == 256 * Number(s2) + c;
  }

  lemma WrittenNumber(prefix: seq<Byte>, n: nat)
    requires n < WORD
    ensures Number(prefix + WriteUInt32(n).value) == Number(prefix) * WORD + n
  {
    var b := WriteUInt32(n).value;
    NumberOfFour(prefix, b[0], b[1], b[2], b[3]);
    assert n / 65536 == n / 256 / 256 && n / 16777216 == n / 65536 / 256;
  }

  /** The two halves of the counter make its eight big-endian bytes; they can be written
      exactly when the counter is not negative and fits 64 bits. */
  lemma CounterIsBigEndian(counter: int)
    ensures CounterBytes(counter).Some? <==> 0 <= counter < WORD * WORD
    ensures CounterBytes(counter).Some? ==>
              |CounterBytes(counter).value| == 8 && Number(CounterBytes(counter).value) == counter
  {
    if 0 <= counter < WORD * WORD {
      var high := WriteUInt32(counter / WORD).value;
      WrittenNumber([], counter / WORD);
      assert [] + high == high;
      WrittenNumber(high, Word(counter));
    }
  }

  /** Dynamic truncation, section 5.3 of RFC 4226, with the code's own operators. */
  function Truncate(d: Digest): int {
    var offset := d[19] % 16;
    Signed(Or(Or(Or(Shl(d[offset] % 128, 24), Shl(d[offset + 1], 16)), Shl(d[offset + 2], 8)), d[offset + 3]))
  }

  lemma Shifted(n: nat, k: nat)
    requires n * Pow2(k) < WORD
    ensures Shl(n, k) == n * Pow2(k)
  {
    hide Pow2;
  }

  /** Truncation reads 31 bits: never negative, so the remainder below is a plain one. */
  lemma TruncateIs(d: Digest)
    ensures var o := d[19] % 16;
            Truncate(d) == Number([d[o] % 128, d[o + 1], d[o + 2], d[o + 3]]) &&
            0 <= Truncate(d) < WORD / 2
  {
    hide *;
    var o := d[19] % 16;
    var a: Byte, b: Byte, c: Byte, e: Byte := d[o] % 128, d[o + 1], d[o + 2], d[o + 3];
    OrOfFour(a, b, c, e);
    SmallSigned(a * 16777216 + b * 65536 + c * 256 + e);
    TruncateOr(d);
    NumberOfFour([], a, b, c, e);
    NumberOfNone();
    assert [] + [a, b, c, e] == [a, b, c, e];
  }

  lemma NumberOfNone()
    ensures Number([]) == 0
  {}

  lemma SmallSigned(n: nat)
    requires n < WORD / 2
    ensures Signed(n) == n
  {}

  lemma TruncateOr(d: Digest)
    ensures var o := d[19] % 16;
            Truncate(d) == Signed(Or(Or(Or(Shl(d[o] % 128, 24), Shl(d[o + 1], 16)), Shl(d[o + 2], 8)), d[o + 3]))
  {
    hide Or, Shl, Signed;
  }

  /** The four bytes or-ed into place make their big-endian sum. */
  lemma OrOfFour(a: nat, b: nat, c: nat, e: nat)
    requires a < 128 && b < 256 && c < 256 && e < 256
    ensures Or(Or(Or(Shl(a, 24), Shl(b, 16)), Shl(c, 8)), e) == a * 16777216 + b * 65536 + c * 256 + e < WORD / 2
  {
    hide Or, Shl, Pow2;
    Powers();
    Shifted(a, 24);
    Shifted(b, 16);
    Shifted(c, 8);
    OrIntoZeros(a, b * 65536, 24);
    OrIntoZeros(a * 256 + b, c * 256, 16);
    OrIntoZeros(a * 65536 + b * 256 + c, e, 8);
  }

  function Pow10(n: nat): (r: nat)
    ensures r >= 1
  {
    if n == 0 then 1 else 10 * Pow10(n - 1)
  }

  datatype Code = Code(text: string) | Throws

  /** The code of one counter under an abstract keyed digest. */
  function Hotp(mac: (seq<Byte>, seq<Byte>) -> Digest, secret: string, counter: int, digits: nat): Code {
    var key, buf := Decoding(secret), CounterBytes(counter);
    if key.Invalid? || buf.None? then Throws
    else Code(PadZeros(ToDec(Remainder(mac(key.value, buf.value), digits)), digits))
  }

  function Remainder(d: Digest, digits: nat): (r: nat)
    ensures r < Pow10(digits)
  {
    TruncateIs(d);
    Truncate(d) % Pow10(digits)
  }

  lemma {:induction false} DecimalWidth(n: nat, k: nat)
    requires k >= 1 && n < Pow10(k)
    ensures |ToDec(n)| <= k
  {
    if n >= 10 { DecimalWidth(n / 10, k - 1); }
  }

  /** Four bytes of the digest from the offset its last four bits give, without the top bit. */
  function OffsetBytes(d: Digest): seq<Byte> {
    var o := d[19] % 16;
    [d[o] % 128, d[o + 1], d[o + 2], d[o + 3]]
  }

  lemma RemainderIs(d: Digest, digits: nat)
    ensures Remainder(d, digits) == Number(OffsetBytes(d)) % Pow10(digits)
  {
    TruncateIs(d);
    hide Truncate, Number, Pow10;
  }

  /** A code has exactly the digits asked for and denotes, modulo the power of ten, the four
      bytes at the offset of the digest of the counter's eight bytes under the key. */
  lemma HotpShape(mac: (seq<Byte>, seq<Byte>) -> Digest, secret: string, counter: int, digits: nat)
    requires digits >= 1
    ensures var r := Hotp(mac, secret, counter, digits);
            (r.Code? <==> Decoding(secret).Bytes? && 0 <= counter < WORD * WORD) &&
            (r.Code? ==>
               var key, message := Decoding(secret).value, CounterBytes(counter).value;
               |message| == 8 && Number(message) == counter &&
               |r.text| == digits && AllDigits(r.text) &&
               ParseDec(r.text) == Number(OffsetBytes(mac(key, message))) % Pow10(digits))
  {
    CounterIsBigEndian(counter);
    hide Decoding, CounterBytes, Remainder, ToDec, ParseDec, Pow10, Number, OffsetBytes;
    if Hotp(mac, secret, counter, digits).Code? {
      RemainderIs(mac(Decoding(secret).value, CounterBytes(counter).value), digits);
      var n := Remainder(mac(Decoding(secret).value, CounterBytes(counter).value), digits);
      DecimalWidth(n, digits);
      PaddedNumber(ToDec(n), digits);
      ParseToDec(n);
    }
  }

  lemma CodeOfDigest(mac: (seq<Byte>, seq<Byte>) -> Digest, secret: string, counter: int, d: Digest)
    requires Decoding(secret).Bytes? && 0 <= counter < WORD * WORD && forall key, message :: mac(key, message) == d
    ensures var r := Hotp(mac, secret, counter, 6);
            r.Code? && |r.text| == 6 && AllDigits(r.text) && ParseDec(r.text) == Number(OffsetBytes(d)) % 1000000
  {
    HotpShape(mac, secret, counter, 6);
    OneMillion();
    hide Hotp, Decoding, CounterBytes, ParseDec, Number, OffsetBytes, Pow10;
  }

  lemma OneMillion()
    ensures Pow10(6) == 1000000
  {
    assert Pow10(3) == 1000;
    assert Pow10(6) == 10 * Pow10(5) && Pow10(5) == 10 * Pow10(4) && Pow10(4) == 10 * Pow10(3);
  }

  /** The example in section 5.4 of RFC 4226: that digest's code of six digits is 872921. */
  lemma SampleCode(mac: (seq<Byte>, seq<Byte>) -> Digest, secret: string, counter: int, d: Digest)
    requires Decoding(secret).Bytes? && 0 <= counter < WORD * WORD && forall key, message :: mac(key, message) == d
    requires d == [0x1f, 0x86, 0x98, 0x69, 0x0e, 0x02, 0xca, 0x16, 0x61, 0x85,
                   0x50, 0xef, 0x7f, 0x19, 0xda, 0x8e, 0x94, 0x5b, 0x55, 0x5a]
    ensures var r := Hotp(mac, secret, counter, 6);
            r.Code? && |r.text| == 6 && AllDigits(r.text) && ParseDec(r.text) == 872921
  {
    hide *;
    CodeOfDigest(mac, secret, counter, d);
    SampleBytes(d);
    SampleNumber();
  }

  lemma SampleBytes(d: Digest)
    requires d[19] == 0x5a && d[10] == 0x50 && d[11] == 0xef && d[12] == 0x7f && d[13] == 0x19
    ensures OffsetBytes(d) == [0x50, 0xef, 0x7f, 0x19]
  {}

  lemma SampleNumber()
    ensures Number([0x50, 0xef, 0x7f, 0x19]) == 1357872921
  {
    hide Number;
    NumberOfFour([], 0x50, 0xef, 0x7f, 0x19);
    NumberOfNone();
    assert [] + [0x50, 0xef, 0x7f, 0x19] == [0x50, 0xef, 0x7f, 0x19];
  }

  lemma {:induction false} PaddedNumber(s: string, width: nat)
    requires AllDigits(s)
    ensures AllDigits(PadZeros(s, width)) && ParseDec(PadZeros(s, width)) == ParseDec(s)
  {
    ZerosInFront(s, if |s| < width then width - |s| else 0);
    if |s| >= width { assert Repeat('0', 0) + s == s; }
  }

  lemma {:induction false} ZerosInFront(s: string, n: nat)
    requires AllDigits(s)
    ensures AllDigits(Repeat('0', n) + s) && ParseDec(Repeat('0', n) + s) == ParseDec(s)
  {
    var t := Repeat('0', n) + s;
    if s == "" {
      if n > 0 {
        ZerosInFront("", n - 1);
        assert t[..|t| - 1] == Repeat('0', n - 1) + "";
      }
    } else {
      ZerosInFront(s[..|s| - 1], n);
      assert t[..|t| - 1] == Repeat('0', n) + s[..|s| - 1];
    }
  }

  datatype Verdict = Verdict(ok: bool) | Threw

  ghost predicate InWindow(mac: (seq<Byte>, seq<Byte>) -> Digest, secret: string, presented: string, counter: int,
                           digits: nat, window: int) {
    exists c :: counter - window <= c <= counter + window && Hotp(mac, secret, c, digits) == Code(presented)
  }

  /** Accepts exactly the codes of the steps in the window. A window reaching before the
      epoch, or a secret that is not base32, throws. */
  ghost function Verified(mac: (seq<Byte>, seq<Byte>) -> Digest, secret: string, presented: string, counter: int,
                          digits: nat, window: int): Verdict {
    if presented == "" || !AllDigits(presented) || |presented| != digits || window < 0 then Verdict(false)
    else if Decoding(secret).Invalid? || counter - window < 0 then Threw
    else Verdict(InWindow(mac, secret, presented, counter, digits, window))
  }

  /** The search starts with the oldest step. */
  method VerifyTotp(mac: (seq<Byte>, seq<Byte>) -> Digest, secret: string, presented: string, counter: int,
                    digits: nat, window: int)
    returns (r: Verdict)
    requires counter + window < WORD * WORD
    ensures r == Verified(mac, secret, presented, counter, digits, window)
  {
    hide Hotp, Decoding, ParseDec;
    if presented == "" || !AllDigits(presented) || |presented| != digits { return Verdict(false); }
    ghost var first := counter - window;
    HotpShape(mac, secret, first, digits);
    var i := -window;
    while i <= window
      invariant window >= 0 ==> -window <= i <= window + 1
      invariant i > -window ==> Hotp(mac, secret, first, digits).Code?
      invariant forall c :: first <= c < counter + i ==> Hotp(mac, secret, c, digits) != Code(presented)
      decreases window - i
    {
      HotpShape(mac, secret, counter + i, digits);
      var candidate := Hotp(mac, secret, counter + i, digits);
      if candidate.Throws? { return Threw; }
      if candidate.text == presented { return Verdict(true); }
      i := i + 1;
    }
    r := Verdict(false);
  }

  /** In the first step after the epoch the default window asks for the code of step -1,
      which throws, whatever the secret and the code of the current step. */
  lemma FirstStepThrows(mac: (seq<Byte>, seq<Byte>) -> Digest, secret: string)
    ensures Hotp(mac, secret, -1, 6) == Throws && Verified(mac, secret, "000000", 0, 6, 1) == Threw
  {
    CounterIsBigEndian(-1);
    assert forall i :: 0 <= i < 6 ==> "000000"[i] == '0';
  }
}
