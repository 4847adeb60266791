/** The two IPv6 expanders side by side: they agree on a text the first one accepts
    exactly when it is trimmed and has dots only in an embedded dotted quad. */
module ExpanderAgreement {
  import opened Options
  import opened Text
  import opened ReverseName
  import opened AddressText
  import opened PtrRowGroups
  import Bits

  /** The 32 digits in groups of four. */
  function FourGroups(h: string): (r: seq<string>)
    requires |h| == 32
    ensures |r| == 8 && forall i :: 0 <= i < 8 ==> r[i] == h[4 * i..4 * i + 4]
  {
    seq(8, i requires 0 <= i < 8 => h[4 * i..4 * i + 4])
  }

  lemma {:induction false} PaddedSlice(g: seq<string>, i: nat)
    requires AllGroupSized(g) && i < |g|
    ensures |Padded(g)| == 4 * |g| && Padded(g)[4 * i..4 * i + 4] == PadZeros(g[i], 4)
  {
    hide *;
    SizedTail(g);
    PaddedCons(g);
    PaddedLength(g);
    if i > 0 {
      PaddedSlice(g[1..], i - 1);
      SliceBehind(PadZeros(g[0], 4), Padded(g[1..]), 4 * (i - 1));
    } else {
      assert (PadZeros(g[0], 4) + Padded(g[1..]))[0..4] == PadZeros(g[0], 4);
    }
  }

  lemma SizedTail(g: seq<string>)
    requires AllGroupSized(g) && g != []
    ensures AllGroupSized(g[1..]) && |g[0]| <= 4
  {}

  lemma PaddedCons(g: seq<string>)
    requires g != []
    ensures Padded(g) == PadZeros(g[0], 4) + Padded(g[1..])
  {}

  lemma SliceBehind(a: string, b: string, i: nat)
    requires |a| == 4 && i + 4 <= |b|
    ensures (a + b)[i + 4..i + 8] == b[i..i + 4]
  {}

  lemma PadEachIsFourGroups(g: seq<string>)
    requires AllGroupSized(g) && |g| == 8
    ensures |Padded(g)| == 32 && PadEach(g) == FourGroups(Padded(g))
  {
    hide Padded, AllGroupSized;
    PaddedSlice(g, 0);
    forall i | 0 <= i < 8 ensures PadEach(g)[i] == FourGroups(Padded(g))[i] { PaddedSlice(g, i); }
  }

  /* ------------------------------------------------------- text surgery */

  /** A character put in front of the parts of a split text. */
  function Prepend(x: char, c: char, r: seq<string>): seq<string>
    requires |r| >= 1
  {
    if x == c then [""] + r else [[x] + r[0]] + r[1..]
  }

  lemma PrependAppend(x: char, c: char, r: seq<string>, q: seq<string>)
    requires |r| >= 1
    ensures Prepend(x, c, r + q) == Prepend(x, c, r) + q
  {
    assert (r + q)[1..] == r[1..] + q;
  }

  lemma SplitCons(s: string, c: char)
    requires s != ""
    ensures Split(s, c) == Prepend(s[0], c, Split(s[1..], c))
  {}

  lemma EmptySplit(c: char, b: string)
    ensures Split([c] + b, c) == Split("", c) + Split(b, c)
  {
    assert ([c] + b)[1..] == b;
  }

  lemma {:induction false} SplitAppend(a: string, b: string, c: char)
    ensures Split(a + [c] + b, c) == Split(a, c) + Split(b, c)
  {
    hide Split, Prepend;
    var s := a + [c] + b;
    if a == "" {
      assert s == [c] + b;
      EmptySplit(c, b);
    } else {
      SplitAppend(a[1..], b, c);
      assert s[0] == a[0] && s[1..] == a[1..] + [c] + b;
      SplitCons(a, c);
      SplitCons(s, c);
      PrependAppend(a[0], c, Split(a[1..], c), Split(b, c));
    }
  }

  lemma {:induction false} LastPart(s: string, c: char)
    ensures Split(s, c)[|Split(s, c)| - 1] == s[LastIndexOf(s, c) + 1..]
    decreases |s|
  {
    if LastIndexOf(s, c) < 0 {
      assert Free(s, c);
      SplitOfFree(s, c);
    } else {
      var i := LastIndexOf(s, c);
      assert s == s[..i] + [c] + s[i + 1..];
      SplitAppend(s[..i], s[i + 1..], c);
      assert Free(s[i + 1..], c);
      SplitOfFree(s[i + 1..], c);
    }
  }

  /** What splitting at double colons into at most two halves says of the text. */
  lemma {:induction false} HalvesAre(s: string)
    ensures var r := SplitDouble(s);
            (|r| == 1 ==> r == [s] && SingleColons(s)) &&
            (|r| == 2 ==> s == r[0] + "::" + r[1] && SingleColons(r[0]) && SingleColons(r[1]) &&
                          (r[0] == "" || r[0][|r[0]| - 1] != ':'))
    decreases |s|
  {
    hide *;
    ShortSingle(s);
    if |s| >= 2 {
      SplitDoubleStep(s);
      if s[0] == ':' && s[1] == ':' {
        HalvesAre(s[2..]);
        assert s == "" + "::" + s[2..];
      } else {
        HalvesAre(s[1..]);
        var q := SplitDouble(s[1..]);
        assert s == [s[0]] + s[1..] && s[1..][0] == s[1];
        if |q| == 1 {
          HeadSingle(s[0], s[1..]);
        } else if |q| == 2 {
          assert q[0] == "" ==> s[1..][0] == ':';
          assert q[0] != "" ==> s[1..][0] == q[0][0];
          HeadHalf(s[0], q[0], s[1]);
          assert s == ([s[0]] + q[0]) + "::" + q[1];
        }
      }
    }
  }

  lemma ShortSingle(s: string)
    ensures SingleColons("") && (|s| < 2 ==> SplitDouble(s) == [s] && SingleColons(s))
  {}

  lemma SplitDoubleStep(s: string)
    requires |s| >= 2
    ensures SplitDouble(s) ==
            if s[0] == ':' && s[1] == ':' then [""] + SplitDouble(s[2..])
            else [[s[0]] + SplitDouble(s[1..])[0]] + SplitDouble(s[1..])[1..]
  {}

  /** One more character in front of a half, when `next` is what follows it in the text. */
  lemma HeadHalf(c: char, half: string, next: char)
    requires SingleColons(half) && !(c == ':' && next == ':') && next == (if half == "" then ':' else half[0])
    requires half == "" || half[|half| - 1] != ':'
    ensures SingleColons([c] + half) && ([c] + half)[|half|] != ':'
  {
    HeadSingle(c, half);
  }

  lemma HeadSingle(c: char, s: string)
    requires SingleColons(s) && (s == "" || !(c == ':' && s[0] == ':'))
    ensures SingleColons([c] + s)
  {
    var t := [c] + s;
    forall i | 0 <= i < |t| - 1 ensures !(t[i] == ':' && t[i + 1] == ':') {
      if i > 0 { assert t[i] == s[i - 1] && t[i + 1] == s[i - 1 + 1]; }
    }
  }

  lemma ColonJoinSingle(a: string, b: string)
    requires SingleColons(a) && SingleColons(b)
    requires a != "" ==> a[|a| - 1] != ':'
    requires b != "" ==> b[0] != ':'
    ensures SingleColons(a + ":" + b)
  {
    var s := a + ":" + b;
    forall i | 0 <= i < |s| - 1 ensures !(s[i] == ':' && s[i + 1] == ':') {
      if i + 1 < |a| { assert s[i] == a[i] && s[i + 1] == a[i + 1]; }
      else if i + 1 == |a| { assert s[i] == a[i]; }
      else if i == |a| { assert s[i + 1] == b[0]; }
      else { assert s[i] == b[i - |a| - 1] && s[i + 1] == b[i - |a| - 1 + 1]; }
    }
  }

  /* -------------------------------------------------------- the quad tail */

  lemma EightBits()
    ensures Bits.Pow2(8) == 256
  {
    assert Bits.Pow2(4) == 16 by { assert Bits.Pow2(2) == 4; }
    assert Bits.Pow2(6) == 64;
  }

  lemma SmallWords(a: nat, b: nat)
    requires a < 256 && b < 256 && Bits.Pow2(8) == 256
    ensures Bits.Shl(a, 8) == a * 256 && Bits.Word(b) == b && Bits.Signed(a * 256 + b) == a * 256 + b
  {
    hide Bits.Pow2;
  }

  lemma TwoOctetsOf(a: nat, b: nat)
    ensures var n := Bits.Signed(Bits.Or(Bits.Shl(a, 8), Bits.Word(b))); n >= 0 ==> TwoOctets(a, b) == ToHex(n)
  {
    hide ToHex, Bits.Or, Bits.Shl, Bits.Word, Bits.Signed;
  }

  lemma TwoOctetsIsHex(a: nat, b: nat)
    requires a < 256 && b < 256
    ensures TwoOctets(a, b) == ToHex(a * 256 + b)
  {
    hide *;
    EightBits();
    Bits.OrIntoZeros(a, b, 8);
    SmallWords(a, b);
    TwoOctetsOf(a, b);
  }

  lemma QuadHasNoColon(t: string)
    requires IsQuad(t)
    ensures Free(t, ':') && forall i :: 0 <= i < |t| ==> !IsSpace(t[i])
  {
    hide IsSpace;
    var m := Split(t, '.');
    forall d: char | d != '.' && !IsDigit(d) ensures Free(t, d) {
      SplitKeeps(t, '.', d);
    }
    DigitOrDotNoSpace(t);
  }

  lemma DigitOrDotNoSpace(t: string)
    requires forall d: char :: d != '.' && !IsDigit(d) ==> Free(t, d)
    ensures forall i :: 0 <= i < |t| ==> !IsSpace(t[i])
  {
    forall i | 0 <= i < |t| ensures !IsSpace(t[i]) {
      assert !Free(t, t[i]);
    }
  }

  lemma NoQuadWithoutDots(s: string)
    requires Free(s, '.')
    ensures WithoutQuad(s) == s
  {
    var i := QuadStart(s);
    if i >= 0 {
      assert Free(s[i..], '.');
      SplitOfFree(s[i..], '.');
    }
  }

  lemma Ipv6IsPlain(q: string)
    requires AllIpv6Chars(q)
    ensures Plain(q)
  {
    forall i | 0 <= i < |q| ensures !IsSpace(q[i]) && !('A' <= q[i] <= 'Z') { assert Ipv6Char(q[i]); }
  }

  lemma QuadParts(q: string)
    requires AllIpv6Chars(q) && ParseIpv4(q).Some?
    ensures var v4 := ParseIpv4(q).value;
            IsQuad(q) && var m := Split(q, '.');
            ParseDec(m[0]) == v4[0] && ParseDec(m[1]) == v4[1] && ParseDec(m[2]) == v4[2] && ParseDec(m[3]) == v4[3]
  {
    Ipv6IsPlain(q);
    PlainIsFixed(q);
    hide Trim, Split, AllIpv6Chars, Octets, ParseDec, Plain, Lower;
    var m, v4 := Split(q, '.'), ParseIpv4(q).value;
    forall i | 0 <= i < 4 ensures m[i] != "" && AllDigits(m[i]) && ParseDec(m[i]) == v4[i] {
      assert Octet(m[i]) == Some(v4[i]);
    }
  }

  /** With dots in the tail only, the leftmost quad is the tail. */
  lemma QuadIsTail(s: string, lc: nat)
    requires AllIpv6Chars(s) && lc < |s| && s[lc] == ':' && ParseIpv4(s[lc + 1..]).Some?
    ensures QuadStart(s) == lc + 1
  {
    hide ParseIpv4, IsQuad, IsSpace, ParseDec, Split, QuadStart;
    TailChars(s, lc + 1);
    QuadParts(s[lc + 1..]);
    QuadNotEmpty(s[lc + 1..]);
    var i := QuadStart(s);
    if 0 <= i <= lc {
      assert s[i..][lc - i] == ':';
      QuadHasNoColon(s[i..]);
    }
  }

  lemma TailText(s: string)
    requires AllIpv6Chars(s) && DottedTail(s).Some? && DottedTail(s).value.1 != []
    ensures var lc, tail := LastIndexOf(s, ':'), DottedTail(s).value.1;
            0 <= lc < |s| && s[lc] == ':' && |tail| == 2 &&
            WithoutQuad(s) == s[..lc + 1] + tail[0] + ":" + tail[1] &&
            DottedTail(s).value.0 == (if EndsWith(s[..lc + 1], "::") then s[..lc + 1] else s[..lc])
  {
    hide ToHex, ParseIpv4, AllIpv6Chars, EndsWith, WithoutQuad, LastIndexOf;
    QuadWritten(s, LastIndexOf(s, ':'));
    assert s[..LastIndexOf(s, ':') + 1][..LastIndexOf(s, ':')] == s[..LastIndexOf(s, ':')];
  }

  lemma QuadWritten(s: string, lc: nat)
    requires AllIpv6Chars(s) && lc < |s| && s[lc] == ':' && ParseIpv4(s[lc + 1..]).Some?
    ensures var v4 := ParseIpv4(s[lc + 1..]).value;
            WithoutQuad(s) == s[..lc + 1] + ToHex(v4[0] * 256 + v4[1]) + ":" + ToHex(v4[2] * 256 + v4[3])
  {
    hide ToHex, ParseIpv4, ParseDec, AllIpv6Chars, TwoOctets, QuadStart, Split, IsQuad;
    QuadIsTail(s, lc);
    TailChars(s, lc + 1);
    QuadParts(s[lc + 1..]);
    var v4 := ParseIpv4(s[lc + 1..]).value;
    TwoOctetsIsHex(v4[0], v4[1]);
    TwoOctetsIsHex(v4[2], v4[3]);
  }

  lemma TailChars(s: string, i: nat)
    requires AllIpv6Chars(s) && i <= |s|
    ensures AllIpv6Chars(s[i..])
  {}

  /* ---------------------------------------------- where the two agree */

  /** A half reads the same in both. */
  lemma PartIsGroups(half: string)
    requires Groups(half).Some?
    ensures Part(half) == Groups(half).value
  {}

  lemma HextetsOf(text: string, g: seq<string>, head: seq<string>, tail: seq<string>)
    requires |g| == 8 && AllGroupSized(g) && AllHexGroups(g)
    requires var h := SplitDouble(text);
             |h| <= 2 && head == Part(h[0]) && tail == (if |h| == 2 then Part(h[1]) else [])
    requires |head| + |tail| <= 8 && (|SplitDouble(text)| == 1 ==> |head| + |tail| == 8)
    requires g == head + Repeat("0", 8 - |head| - |tail|) + tail
    ensures Hextets(text) == Some(g)
  {
    hide SplitDouble, Part, Repeat;
    forall i | 0 <= i < 8 ensures IsHextet(g[i]) { assert GroupSized(g[i]) && AllHex(g[i]); }
  }

  lemma PlainTextAgrees(s: string)
    requires Assemble(s, []).Some? && AllHexGroups(EightGroups(s, [])) && AllGroupSized(EightGroups(s, [])) &&
             |EightGroups(s, [])| == 8
    ensures Hextets(s) == Some(EightGroups(s, []))
  {
    hide SplitDouble, Groups, Padded, Part, AllHexGroups, AllGroupSized, Hextets;
    var h := SplitDouble(s);
    PartIsGroups(h[0]);
    var head := Part(h[0]);
    if |h| == 1 {
      assert head + [] == head;
      assert head + Repeat("0", 0) + [] == head;
      HextetsOf(s, EightGroups(s, []), head, []);
    } else {
      PartIsGroups(h[1]);
      var tail := Part(h[1]);
      assert head + Repeat("0", 8 - |head| - |tail|) + tail + [] == head + Repeat("0", 8 - |head| - |tail|) + tail;
      HextetsOf(s, EightGroups(s, []), head, tail);
    }
  }

  lemma PairText(hi: string, lo: string)
    requires GroupSized(hi) && GroupSized(lo) && AllHex(hi) && AllHex(lo)
    ensures var y := hi + ":" + lo;
            SingleColons(y) && y != "" && y[0] != ':' && Part(y) == [hi, lo] && Split(y, ':') == [hi, lo]
  {
    var g := [hi, lo];
    assert PrintedGroups(g);
    JoinInside(g);
    assert g[1..] == [lo];
    assert Join([lo], ":") == lo;
    assert Join(g, ":") == hi + ":" + lo;
    SplitJoin(g, ':');
  }

  /** `X::` and the quad. */
  lemma DoubleBeforeQuad(x: string, tail: seq<string>)
    requires |tail| == 2 && AllHexGroups(tail) && AllGroupSized(tail) && SingleColons(x) &&
             (x == "" || x[|x| - 1] != ':')
    requires Assemble(x + "::", tail).Some?
    requires var g := EightGroups(x + "::", tail); AllHexGroups(g) && AllGroupSized(g) && |g| == 8
    ensures Hextets(x + "::" + tail[0] + ":" + tail[1]) == Some(EightGroups(x + "::", tail))
  {
    hide SplitDouble, Groups, Padded, Part, AllHexGroups, AllGroupSized, Hextets, SingleColons;
    PairAt(tail);
    var y := tail[0] + ":" + tail[1];
    assert x + "::" + tail[0] + ":" + tail[1] == x + "::" + y;
    assert x + "::" == x + "::" + "";
    SplitFrom(x, "");
    SplitFrom(x, y);
    SplitDoubleNone(y);
    EmptyHalf();
    PartIsGroups(x);
    var head := Part(x);
    var z := Repeat("0", 8 - |head| - 2);
    assert [tail[0], tail[1]] == tail;
    assert head + z + [] + tail == head + z + tail;
    HextetsOf(x + "::" + y, EightGroups(x + "::", tail), head, tail);
  }

  lemma PairAt(tail: seq<string>)
    requires |tail| == 2 && AllHexGroups(tail) && AllGroupSized(tail)
    ensures var y := tail[0] + ":" + tail[1];
            SingleColons(y) && y != "" && y[0] != ':' && Part(y) == tail && Split(y, ':') == tail
  {
    PairText(tail[0], tail[1]);
    assert [tail[0], tail[1]] == tail;
  }

  lemma EmptyHalf()
    ensures SplitDouble("") == [""] && Groups("") == Some([]) && SingleColons("")
  {}

  /** A body that goes on with one colon and the quad. */
  lemma SingleBeforeQuad(body: string, tail: seq<string>)
    requires |tail| == 2 && AllHexGroups(tail) && AllGroupSized(tail)
    requires body != "" && body[|body| - 1] != ':'
    requires Assemble(body, tail).Some?
    requires var g := EightGroups(body, tail); AllHexGroups(g) && AllGroupSized(g) && |g| == 8
    ensures Hextets(body + ":" + tail[0] + ":" + tail[1]) == Some(EightGroups(body, tail))
  {
    PairAt(tail);
    var y := tail[0] + ":" + tail[1];
    var text := body + ":" + tail[0] + ":" + tail[1];
    assert text == body + ":" + y;
    HalvesAre(body);
    hide SplitDouble, Groups, Padded, Part, AllHexGroups, AllGroupSized, Hextets, SingleColons, EightGroups, Assemble;
    if |SplitDouble(body)| == 1 {
      WholeBeforeQuad(body, y, tail);
    } else {
      AssembledHalves(body, tail);
      HalvesBeforeQuad(body, y, tail);
    }
  }

  lemma AssembledHalves(body: string, tail: seq<string>)
    requires Assemble(body, tail).Some?
    ensures |SplitDouble(body)| <= 2
  {}

  lemma WholeBeforeQuad(body: string, y: string, tail: seq<string>)
    requires SplitDouble(body) == [body] && SingleColons(body) && body != "" && body[|body| - 1] != ':'
    requires SingleColons(y) && y != "" && y[0] != ':' && Split(y, ':') == tail
    requires Assemble(body, tail).Some?
    requires var g := EightGroups(body, tail); AllHexGroups(g) && AllGroupSized(g) && |g| == 8
    ensures Hextets(body + ":" + y) == Some(EightGroups(body, tail))
  {
    hide SplitDouble, Groups, Padded, Part, AllHexGroups, AllGroupSized, Hextets, SingleColons, Split;
    var text := body + ":" + y;
    ColonJoinSingle(body, y);
    SplitDoubleNone(text);
    SplitAppend(body, y, ':');
    PartOfText(text);
    PartOfText(body);
    PartIsGroups(body);
    var all := Part(text);
    assert all == EightGroups(body, tail);
    assert all + Repeat("0", 0) + [] == all;
    HextetsOf(text, all, all, []);
  }

  lemma TailBehind(a: string, b: string, y: string)
    ensures a + "::" + b + ":" + y == a + "::" + (b + ":" + y)
  {}

  lemma HalvesBeforeQuad(body: string, y: string, tail: seq<string>)
    requires |SplitDouble(body)| == 2 && body != "" && body[|body| - 1] != ':'
    requires SingleColons(y) && y != "" && y[0] != ':' && Split(y, ':') == tail
    requires Assemble(body, tail).Some?
    requires var g := EightGroups(body, tail); AllHexGroups(g) && AllGroupSized(g) && |g| == 8
    ensures Hextets(body + ":" + y) == Some(EightGroups(body, tail))
  {
    hide *;
    HalvesAre(body);
    EightOfHalves(body, tail);
    var a, b := SplitDouble(body)[0], SplitDouble(body)[1];
    LastHalf(body, a, b);
    var t := b + ":" + y;
    TailBehind(a, b, y);
    ColonJoinSingle(b, y);
    SplitFrom(a, t);
    SplitDoubleNone(t);
    SplitAppend(b, y, ':');
    PartOfText(b);
    PartOfText(t);
    PartIsGroups(a);
    PartIsGroups(b);
    var head, rest := Part(a), Part(b);
    RegroupTail(head, Repeat("0", 8 - (|head| + |rest| + |tail|)), rest, tail);
    HextetsOf(body + ":" + y, EightGroups(body, tail), head, rest + tail);
  }

  lemma EightOfHalves(body: string, tail: seq<string>)
    requires Assemble(body, tail).Some? && |SplitDouble(body)| == 2
    ensures var h := SplitDouble(body);
            Groups(h[0]).Some? && Groups(h[1]).Some? &&
            var head, rest := Groups(h[0]).value, Groups(h[1]).value;
            |head| + |rest| + |tail| <= 7 &&
            EightGroups(body, tail) == head + Repeat("0", 8 - (|head| + |rest| + |tail|)) + rest + tail
  {
    hide SplitDouble, Groups, Padded, Repeat;
  }

  lemma RegroupTail(a: seq<string>, b: seq<string>, c: seq<string>, d: seq<string>)
    ensures a + b + c + d == a + b + (c + d)
  {}

  lemma PartOfText(t: string)
    requires t != ""
    ensures Part(t) == Split(t, ':')
  {}

  lemma LastHalf(body: string, a: string, b: string)
    requires body != "" && body[|body| - 1] != ':' && body == a + "::" + b
    ensures b != "" && b[|b| - 1] != ':'
  {
    assert b == "" ==> body == a + "::";
  }

  lemma BeforeColon(s: string, lc: nat)
    requires lc < |s| && s[lc] == ':' && !EndsWith(s[..lc + 1], "::") && lc > 0
    ensures s[..lc][lc - 1] != ':'
  {
    assert s[..lc + 1][lc - 1..] == [s[lc - 1], s[lc]];
  }

  lemma TextAgrees(s: string)
    requires s != "" && AllIpv6Chars(s) && !TripleColon(s) && DottedTail(s).Some?
    requires var (body, tail) := DottedTail(s).value; Assemble(body, tail).Some? && Free(body, '.')
    ensures var (body, tail) := DottedTail(s).value;
            Hextets(WithoutQuad(s)) == Some(EightGroups(body, tail)) &&
            AllGroupSized(EightGroups(body, tail)) && |EightGroups(body, tail)| == 8 &&
            Assemble(body, tail) == Some(Padded(EightGroups(body, tail)))
  {
    hide *;
    DottedTailChars(s);
    var (body, tail) := DottedTail(s).value;
    AssembleGroups(body, tail);
    if tail == [] {
      NoTailIsWhole(s);
      NoQuadWithoutDots(s);
      PlainTextAgrees(s);
    } else {
      TailText(s);
      QuadTextAgrees(s, LastIndexOf(s, ':'), body, tail);
    }
  }

  lemma QuadTextAgrees(s: string, lc: nat, body: string, tail: seq<string>)
    requires lc < |s| && s[lc] == ':' && !TripleColon(s)
    requires |tail| == 2 && AllHexGroups(tail) && AllGroupSized(tail) && Assemble(body, tail).Some?
    requires body == if EndsWith(s[..lc + 1], "::") then s[..lc + 1] else s[..lc]
    requires var g := EightGroups(body, tail); AllHexGroups(g) && AllGroupSized(g) && |g| == 8
    requires WithoutQuad(s) == s[..lc + 1] + tail[0] + ":" + tail[1]
    ensures Hextets(WithoutQuad(s)) == Some(EightGroups(body, tail))
  {
    hide Assemble, EightGroups, AllHexGroups, AllGroupSized, Hextets, WithoutQuad, EndsWith, TripleColon, SingleColons;
    if EndsWith(s[..lc + 1], "::") {
      DoubleEnd(s, lc, tail);
      DoubleBeforeQuad(s[..lc - 1], tail);
    } else {
      EmptyBodyFails(tail);
      if lc > 0 { BeforeColon(s, lc); }
      assert s[..lc + 1] == s[..lc] + ":";
      SingleBeforeQuad(s[..lc], tail);
    }
  }

  lemma NoTailIsWhole(s: string)
    requires DottedTail(s).Some? && DottedTail(s).value.1 == []
    ensures DottedTail(s).value.0 == s && Free(s, '.')
  {}

  lemma EmptyBodyFails(tail: seq<string>)
    requires |tail| == 2
    ensures Assemble("", tail).None?
  {
    EmptyHalf();
  }

  lemma NoTripleAt(s: string, lc: nat)
    requires lc < |s| && !TripleColon(s)
    ensures lc >= 2 ==> !(s[lc - 2] == ':' && s[lc - 1] == ':' && s[lc] == ':')
  {
    if lc >= 2 { assert s[lc - 2 + 1] == s[lc - 1] && s[lc - 2 + 2] == s[lc]; }
  }

  lemma DoubleEnd(s: string, lc: nat, tail: seq<string>)
    requires lc < |s| && EndsWith(s[..lc + 1], "::") && !TripleColon(s) && Assemble(s[..lc + 1], tail).Some?
    ensures lc >= 1 && s[..lc + 1] == s[..lc - 1] + "::"
    ensures SingleColons(s[..lc - 1]) && (s[..lc - 1] == "" || s[..lc - 1][lc - 2] != ':')
  {
    hide *;
    var b := s[..lc + 1];
    EndsDouble(b);
    NoTripleAt(s, lc);
    HalvesAre(b);
    AssembledHalves(b, tail);
    assert s[..lc - 1] == b[..|b| - 2];
    assert s[lc - 1] == b[|b| - 2] && s[lc] == b[|b| - 1];
    TwoEnds(s[..lc - 1], SplitDouble(b)[0], SplitDouble(b)[1]);
  }

  lemma EndsDouble(b: string)
    requires EndsWith(b, "::")
    ensures |b| >= 2 && b == b[..|b| - 2] + "::" && b[|b| - 2] == ':' && b[|b| - 1] == ':' && !SingleColons(b)
  {
    assert b[|b| - 2..] == "::";
    assert b[|b| - 2] == ':' && b[|b| - 2 + 1] == ':';
  }

  lemma TwoEnds(x: string, a: string, b: string)
    requires x + "::" == a + "::" + b && SingleColons(b) && SingleColons(a)
    requires x == "" || x[|x| - 1] != ':'
    ensures SingleColons(x)
  {
    LastTwo(b);
    EndsOf(x, a, b);
  }

  lemma LastTwo(b: string)
    requires SingleColons(b)
    ensures |b| >= 2 ==> !(b[|b| - 2] == ':' && b[|b| - 1] == ':')
  {
    if |b| >= 2 { assert b[|b| - 2 + 1] == b[|b| - 1]; }
  }

  lemma EndsOf(x: string, a: string, b: string)
    requires x + "::" == a + "::" + b
    ensures |b| >= 2 ==> b[|b| - 2] == ':' && b[|b| - 1] == ':'
    ensures |b| == 1 ==> x != "" && x[|x| - 1] == ':'
    ensures |b| == 0 ==> x == a
  {
    var s, t := x + "::", a + "::" + b;
    if |b| >= 2 {
      assert t[|t| - 2] == b[|b| - 2] && t[|t| - 1] == b[|b| - 1];
    } else if |b| == 1 {
      assert t[|t| - 3] == ':' && s[|s| - 3] == x[|x| - 1];
    } else {
      assert s[..|x|] == x && t[..|x|] == a;
    }
  }

  lemma NoPercent(s: string)
    requires AllIpv6Chars(s)
    ensures Split(s, '%') == [s]
  {
    assert Free(s, '%');
    SplitOfFree(s, '%');
  }

  /** On a trimmed text with dots in the tail only, the second expander prints the
      first one's 32 digits with colons. */
  lemma Agree(text: string)
    requires ExpandIpv6(text).Some? && Trim(text) == text && DotsOnlyInTail(text)
    ensures |ExpandIpv6(text).value| == 32
    ensures ExpandAddress(text) == Join(FourGroups(ExpandIpv6(text).value), ":")
  {
    hide Lower, Trim, DottedTail, Assemble, Padded, EightGroups, LastIndexOf, Join, Hextets, WithoutQuad;
    var s := Lower(text);
    DottedTailChars(s);
    NoPercent(s);
    TextAgrees(s);
    var (body, tail) := DottedTail(s).value;
    PadEachIsFourGroups(EightGroups(body, tail));
  }

  /* --------------------------------------------- and where they do not */

  lemma FreeRest(s: string, d: char)
    requires s != ""
    ensures Free(s, d) <==> Free(s[1..], d) && s[0] != d
  {
    hide *;
    assert s == [s[0]] + s[1..];
    FreeCons(s[0], s[1..], d);
  }

  lemma {:induction false} TrimStartKeeps(s: string, d: char)
    requires !IsSpace(d) && Free(TrimStart(s), d)
    ensures Free(s, d)
  {
    hide *;
    TrimStep(s);
    if s != "" && IsSpace(s[0]) {
      TrimStartKeeps(s[1..], d);
      FreeRest(s, d);
    }
  }

  lemma TrimStep(s: string)
    ensures TrimStart(s) == if s != "" && IsSpace(s[0]) then TrimStart(s[1..]) else s
    ensures TrimEnd(s) == if s != "" && IsSpace(s[|s| - 1]) then TrimEnd(s[..|s| - 1]) else s
  {}

  lemma FreeLast(s: string, c: char, d: char)
    ensures Free(s + [c], d) <==> Free(s, d) && c != d
  {
    var t := s + [c];
    assert t[|s|] == c;
    assert forall i :: 0 <= i < |s| ==> t[i] == s[i];
  }

  lemma FreeInit(s: string, d: char)
    requires s != ""
    ensures Free(s, d) <==> Free(s[..|s| - 1], d) && s[|s| - 1] != d
  {
    hide *;
    assert s == s[..|s| - 1] + [s[|s| - 1]];
    FreeLast(s[..|s| - 1], s[|s| - 1], d);
  }

  lemma {:induction false} TrimEndKeeps(s: string, d: char)
    requires !IsSpace(d) && Free(TrimEnd(s), d)
    ensures Free(s, d)
  {
    hide *;
    TrimStep(s);
    if s != "" && IsSpace(s[|s| - 1]) {
      TrimEndKeeps(s[..|s| - 1], d);
      FreeInit(s, d);
    }
  }

  lemma PartsOf(head: seq<string>, zeros: seq<string>, tail: seq<string>)
    ensures var g := head + zeros + tail;
            g[0..|head|] == head && g[|head| + |zeros|..|g|] == tail
  {}

  /** What the second expander reads holds hex digits and colons only, or it gives up. */
  lemma HextetsChars(text: string, d: char)
    requires Hextets(text).Some? && !IsHex(d) && d != ':'
    ensures Free(text, d)
  {
    SplitDoubleKeeps(text, d);
    var h := SplitDouble(text);
    var head, tail := Part(h[0]), if |h| == 2 then Part(h[1]) else [];
    var zeros := Repeat("0", 8 - |head| - |tail|);
    var g := head + zeros + tail;
    hide Part, SplitDouble, IsHextet;
    PartsOf(head, zeros, tail);
    PartFree(h[0], g, 0, d);
    if |h| == 2 { PartFree(h[1], g, 8 - |tail|, d); }
  }

  lemma PartFree(half: string, g: seq<string>, at: nat, d: char)
    requires d != ':' && !IsHex(d)
    requires at + |Part(half)| <= |g| && g[at..at + |Part(half)|] == Part(half)
    requires forall i :: 0 <= i < |g| ==> IsHextet(g[i])
    ensures Free(half, d)
  {
    if half != "" {
      SplitKeeps(half, ':', d);
      var p := Split(half, ':');
      forall i | 0 <= i < |p| ensures Free(p[i], d) {
        assert p[i] == g[at..at + |Part(half)|][i] == g[at + i];
      }
    }
  }

  lemma EdgeSpaceStays(s: string)
    requires s != "" && (IsSpace(s[0]) || IsSpace(s[|s| - 1]))
    ensures var t := WithoutQuad(s); exists c :: c in t && IsSpace(c)
  {
    hide IsSpace, TwoOctets;
    var i := QuadStart(s);
    if i >= 0 {
      assert s[0..] == s;
      QuadHasNoColon(s[i..]);
      QuadNotEmpty(s[i..]);
      assert s[i..][|s| - i - 1] == s[|s| - 1];
      assert WithoutQuad(s)[0] == s[0];
      assert s[0] in WithoutQuad(s);
    } else {
      assert s[0] in s && s[|s| - 1] in s;
    }
  }

  lemma QuadNotEmpty(t: string)
    requires IsQuad(t)
    ensures t != ""
  {}

  lemma SpaceNotHextets(t: string, c: char)
    requires c in t && IsSpace(c)
    ensures Hextets(t).None?
  {
    if Hextets(t).Some? { HextetsChars(t, c); }
  }

  lemma LowerSpace(s: string)
    ensures forall i :: 0 <= i < |s| ==> (IsSpace(Lower(s)[i]) <==> IsSpace(s[i]))
    ensures Free(Lower(s), '%') <==> Free(s, '%')
  {}

  /** Untrimmed text is given back as it is. */
  lemma UntrimmedGivenBack(text: string)
    requires ExpandIpv6(text).Some? && Trim(text) != text
    ensures ExpandAddress(text) == Lower(text)
    ensures text != "" && (IsSpace(text[0]) || IsSpace(text[|text| - 1]))
  {
    hide ExpandIpv6, IsSpace, Hextets, WithoutQuad;
    assert !Trimmed(text);
    NoPercentIn(text);
    LowerSpace(text);
    SplitOfFree(Lower(text), '%');
    EdgeSpaceStays(Lower(text));
    var t := WithoutQuad(Lower(text));
    var c :| c in t && IsSpace(c);
    SpaceNotHextets(t, c);
  }

  lemma NoPercentIn(text: string)
    requires ExpandIpv6(text).Some?
    ensures Free(text, '%')
  {
    hide DottedTail, Assemble, TripleColon;
    var s := Lower(Trim(text));
    assert Free(s, '%') by { forall i | 0 <= i < |s| ensures s[i] != '%' { assert Ipv6Char(s[i]); } }
    LowerSpace(Trim(text));
    PercentNoSpace();
    TrimEndKeeps(TrimStart(text), '%');
    TrimStartKeeps(text, '%');
  }

  lemma PercentNoSpace()
    ensures !IsSpace('%')
  {}

  lemma FourGroupsChars(h: string)
    requires |h| == 32 && HexOrDot(h)
    ensures Plain(Join(FourGroups(h), ":")) && Split(Join(FourGroups(h), ":"), ':') == FourGroups(h)
    ensures Join(FourGroups(h), ":") != ""
    ensures Free(Join(FourGroups(h), ":"), '.') ==> Free(h, '.')
  {
    var g := FourGroups(h);
    forall i | 0 <= i < 8 ensures Plain(g[i]) && Free(g[i], ':') {
      forall j | 0 <= j < 4 ensures g[i][j] == h[4 * i + j] && (IsHex(g[i][j]) || g[i][j] == '.') {}
    }
    PlainDot();
    PlainJoin(g, ":");
    SplitJoin(g, ':');
    var e := Join(g, ":");
    if Free(e, '.') {
      SplitKeeps(e, ':', '.');
      forall k | 0 <= k < 32 ensures h[k] != '.' { assert g[k / 4][k % 4] == h[k]; }
    }
  }

  lemma JoinedHextets(g: seq<string>)
    requires |g| == 8 && forall i :: 0 <= i < 8 ==> IsHextet(g[i])
    ensures Free(Join(PadEach(g), ":"), '.')
  {
    var p := PadEach(g);
    forall i | 0 <= i < 8 ensures Free(p[i], '.') { PadHex(g[i]); }
    FreeJoin(p, ":", '.');
  }

  lemma LastGroupIsHex(s: string)
    requires AllIpv6Chars(s) && DottedTail(s).Some? && DottedTail(s).value.1 != []
    requires var (body, tail) := DottedTail(s).value; Assemble(body, tail).Some?
    ensures var (body, tail) := DottedTail(s).value;
            var h := Assemble(body, tail).value;
            |h| == 32 && Free(FourGroups(h)[7], '.')
  {
    hide *;
    DottedTailChars(s);
    var (body, tail) := DottedTail(s).value;
    TailTwo(s);
    AssembleGroups(body, tail);
    EightLast(body, tail);
    PaddedSlice(EightGroups(body, tail), 7);
    TailHex(tail);
    PadHex(tail[1]);
    HexNoDot(PadZeros(tail[1], 4));
  }

  lemma EightLast(body: string, tail: seq<string>)
    requires Assemble(body, tail).Some? && |tail| == 2 && |EightGroups(body, tail)| == 8
    ensures EightGroups(body, tail)[7] == tail[1]
  {
    hide SplitDouble, Groups, Padded, Assemble;
  }

  lemma HexNoDot(s: string)
    requires AllHex(s)
    ensures Free(s, '.')
  {}

  lemma TailTwo(s: string)
    requires DottedTail(s).Some? && DottedTail(s).value.1 != []
    ensures |DottedTail(s).value.1| == 2
  {}

  lemma TailHex(tail: seq<string>)
    requires |tail| == 2 && AllHexGroups(tail)
    ensures AllHex(tail[1])
  {}

  lemma DottedGivenBackDiffers(s: string, h: string)
    requires s != "" && AllIpv6Chars(s) && DottedTail(s).Some?
    requires var (body, tail) := DottedTail(s).value; Assemble(body, tail) == Some(h) && |h| == 32
    requires HexOrDot(h) && !Free(h, '.')
    ensures s != Join(FourGroups(h), ":")
  {
    hide Assemble, AllIpv6Chars, Join, FourGroups, HexOrDot;
    FourGroupsChars(h);
    if s == Join(FourGroups(h), ":") {
      LastPart(s, ':');
      if DottedTail(s).value.1 == [] { NoTailIsWhole(s); } else { TailHasDot(s); LastGroupIsHex(s); }
    }
  }

  lemma TailHasDot(s: string)
    requires DottedTail(s).Some? && DottedTail(s).value.1 != []
    ensures !Free(s[LastIndexOf(s, ':') + 1..], '.')
  {
    hide ParseIpv4, ToHex, EndsWith, LastIndexOf;
    var t := s[LastIndexOf(s, ':') + 1..];
    assert '.' in t;
  }

  /** On every text the first expander accepts, the second one prints the same digits
      exactly when the text is trimmed and has dots only after its last colon. */
  lemma ExpandersAgreeIff(text: string)
    requires ExpandIpv6(text).Some?
    ensures |ExpandIpv6(text).value| == 32
    ensures ExpandAddress(text) == Join(FourGroups(ExpandIpv6(text).value), ":") <==>
            Trim(text) == text && DotsOnlyInTail(text)
  {
    ExpandIsHexIff(text);
    var h := ExpandIpv6(text).value;
    FourGroupsChars(h);
    if Trim(text) == text && DotsOnlyInTail(text) {
      Agree(text);
    } else if Trim(text) != text {
      UntrimmedGivenBack(text);
      LowerSpace(text);
      PlainEdges(Join(FourGroups(h), ":"), Lower(text));
    } else {
      DottedDiffers(text);
    }
  }

  lemma PlainEdges(p: string, s: string)
    requires Plain(p) && s != "" && (IsSpace(s[0]) || IsSpace(s[|s| - 1]))
    ensures p != s
  {}

  lemma DottedDiffers(text: string)
    requires ExpandIpv6(text).Some? && Trim(text) == text && !DotsOnlyInTail(text)
    requires |ExpandIpv6(text).value| == 32
    ensures ExpandAddress(text) != Join(FourGroups(ExpandIpv6(text).value), ":")
  {
    ExpandIsHexIff(text);
    hide Lower, Trim, DottedTail, Assemble, Join, Hextets, WithoutQuad, FourGroups, HexOrDot, AllHex, TripleColon,
         DotsOnlyInTail, AllIpv6Chars;
    var h, s := ExpandIpv6(text).value, Lower(text);
    DotIn(h);
    NoPercent(s);
    FourGroupsChars(h);
    DottedGivenBackDiffers(s, h);
    var x := Hextets(WithoutQuad(s));
    if x.Some? { JoinedHextets(x.value); }
  }

  lemma DotIn(h: string)
    requires HexOrDot(h) && !AllHex(h)
    ensures !Free(h, '.')
  {}

  /** One space in front is enough: the first expander trims it, the second gives the
      text back. */
  lemma UntrimmedDiffers()
    ensures ExpandIpv6(" ::").Some? && ExpandIpv6(" ::") == ExpandIpv6("::") && |ExpandIpv6(" ::").value| == 32
    ensures ExpandAddress(" ::") != Join(FourGroups(ExpandIpv6(" ::").value), ":")
  {
    hide *;
    TrimmedSpace();
    AllZeroText();
    SameTrimmed(" ::", "::");
    ExpandersAgreeIff(" ::");
  }

  lemma AllZeroText()
    ensures ExpandIpv6("::").Some?
  {
    hide ExpandIpv6;
    ParseTwoHalves([], [], 8);
    assert Join([], ":") + "::" + Join([], ":") == "::";
  }

  lemma TrimmedSpace()
    ensures Trim(" ::") == "::" && Trim("::") == "::" && " ::" != "::"
  {
    TrimStep(" ::");
    assert " ::"[1..] == "::";
    TrimStep("::");
  }

  lemma SameTrimmed(a: string, b: string)
    requires Trim(a) == Trim(b)
    ensures ExpandIpv6(a) == ExpandIpv6(b)
  {}
}
