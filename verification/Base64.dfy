/** The base64 text of a byte sequence, stated by bit position (sections 4 and 5 of RFC 4648) with a
  * bare line feed after every 76 characters, and the skipping decoder that reads such text back. */
module Base64 {
  import opened Views

  // ---------- alphabets ----------

  function Alphabet(v: int, urlSafe: bool): char
    requires 0 <= v < 64
  {
    if v < 26 then ('A' as int + v) as char
    else if v < 52 then ('a' as int + v - 26) as char
    else if v < 62 then ('0' as int + v - 52) as char
    else if v == 62 then (if urlSafe then '-' else '+')
    else if urlSafe then '_' else '/'
  }

  const UPPER := "ABCDEFGHIJKLMNOPQRSTUVWXYZ"
  const LOWER := "abcdefghijklmnopqrstuvwxyz"
  const DIGITS := "0123456789"

  const STANDARD := UPPER + LOWER + DIGITS + "+/"
  const URLSAFE := UPPER + LOWER + DIGITS + "-_"

  /** The characters of the two alphabets, by value (tables 1 and 2 of RFC 4648). */
  lemma AlphabetIs(v: int, urlSafe: bool)
    requires 0 <= v < 64
    ensures |STANDARD| == 64 && |URLSAFE| == 64
    ensures Alphabet(v, urlSafe) == if urlSafe then URLSAFE[v] else STANDARD[v]
  {
    var rest := if urlSafe then "-_" else "+/";
    if v < 26 {
      Upper(v);
    } else if v < 52 {
      Lower(v - 26);
    } else if v < 62 {
      Digit(v - 52);
    }
    assert |UPPER| == 26 && |LOWER| == 26 && |DIGITS| == 10;
    hide UPPER, LOWER, DIGITS;
    OneOfFour(UPPER, LOWER, DIGITS, rest, v);
  }

  lemma OneOfFour(a: string, b: string, c: string, d: string, v: int)
    requires |a| == 26 && |b| == 26 && |c| == 10 && |d| == 2 && 0 <= v < 64
    ensures (a + b + c + d)[v]
      == if v < 26 then a[v] else if v < 52 then b[v - 26] else if v < 62 then c[v - 52] else d[v - 62]
  {
  }

  lemma Upper(i: int)
    requires 0 <= i < 26
    ensures |UPPER| == 26 && UPPER[i] as int == 'A' as int + i
  {
  }

  lemma Lower(i: int)
    requires 0 <= i < 26
    ensures |LOWER| == 26 && LOWER[i] as int == 'a' as int + i
  {
  }

  lemma Digit(i: int)
    requires 0 <= i < 10
    ensures |DIGITS| == 10 && DIGITS[i] as int == '0' as int + i
  {
  }

  /** The one table that reads both alphabets; -1 stands for its -1 entries and for lookups outside it. */
  function FromAlphabet(c: char): (v: int)
    ensures -1 <= v < 64
  {
    if 'A' <= c <= 'Z' then c as int - 'A' as int
    else if 'a' <= c <= 'z' then c as int - 'a' as int + 26
    else if '0' <= c <= '9' then c as int - '0' as int + 52
    else if c == '+' || c == '-' then 62
    else if c == '/' || c == '_' then 63
    else -1
  }

  lemma FromAlphabetInverts(v: int, urlSafe: bool)
    requires 0 <= v < 64
    ensures FromAlphabet(Alphabet(v, urlSafe)) == v
    ensures Alphabet(v, urlSafe) != '\n' && Alphabet(v, urlSafe) != '='
  {
  }

  // ---------- the text of a byte sequence ----------

  function At(bs: seq<Byte>, i: nat): Byte {
    if i < |bs| then bs[i] else 0
  }

  /** Sextet r of the 24-bit group that starts at byte 3g; bytes past the end read as 0. */
  function SextetOf(bs: seq<Byte>, g: nat, r: nat): (v: int)
    ensures 0 <= v < 64
  {
    if r == 0 then At(bs, 3 * g) / 4
    else if r == 1 then At(bs, 3 * g) % 4 * 16 + At(bs, 3 * g + 1) / 16
    else if r == 2 then At(bs, 3 * g + 1) % 16 * 4 + At(bs, 3 * g + 2) / 64
    else At(bs, 3 * g + 2) % 64
  }

  /** Bits 6k to 6k+5 of the byte sequence. */
  function SextetAt(bs: seq<Byte>, k: nat): (v: int)
    ensures 0 <= v < 64
  {
    SextetOf(bs, k / 4, k % 4)
  }

  /** How many sextets n bytes fill completely: 8n/6, rounded down. */
  function FullSextets(n: nat): nat {
    n / 3 * 4 + n % 3
  }

  /** The sextet number at character position i; a line feed shares the number of the next character. */
  function SextetNumber(i: nat): nat {
    i - i / 77
  }

  /** Characters, line feeds included, that f sextets take. */
  function WithBreaks(f: nat): nat {
    f + f / 76
  }

  function BodyChar(bs: seq<Byte>, urlSafe: bool, i: nat): char {
    if i % 77 == 76 then '\n' else Alphabet(SextetAt(bs, SextetNumber(i)), urlSafe)
  }

  /** The characters of the completely filled sextets, with their line breaks. */
  function Body(bs: seq<Byte>, urlSafe: bool): (s: string)
    ensures |s| == WithBreaks(FullSextets(|bs|))
  {
    seq(WithBreaks(FullSextets(|bs|)), i requires 0 <= i => BodyChar(bs, urlSafe, i))
  }

  /** Bits left over for the next sextet, and their value. */
  function ExtraBits(n: nat): int {
    n % 3 * 2
  }

  function ExtraValue(bs: seq<Byte>): (v: int)
    ensures 0 <= v < Shl(1, ExtraBits(|bs|))
  {
    match |bs| % 3
    case 0 => 0
    case 1 => At(bs, |bs| - 1) % 4
    case _ => At(bs, |bs| - 1) % 16
  }

  // `x << n`, `x >> n` and `x & ((1 << n) - 1)` for the shift counts that occur. Every `|` of the
  // stream joins disjoint bits, so it is written as a sum.

  function Shl(x: int, n: int): int {
    if n == 0 then x else if n == 2 then x * 4 else if n == 4 then x * 16 else if n == 6 then x * 64 else x * 256
  }

  function Shr(x: int, n: int): int {
    if n == 0 then x else if n == 2 then x / 4 else if n == 4 then x / 16 else if n == 6 then x / 64 else x / 256
  }

  function LowBits(x: int, n: int): int {
    if n == 0 then 0 else if n == 2 then x % 4 else if n == 4 then x % 16 else if n == 6 then x % 64 else x % 256
  }

  function Padding(r: nat): string {
    if r == 0 then "" else if r == 1 then "==" else "="
  }

  /** The whole text: the body, then the partial sextet and its padding. */
  function Text(bs: seq<Byte>, urlSafe: bool): string {
    if |bs| % 3 == 0 then Body(bs, urlSafe)
    else Body(bs, urlSafe) + [Alphabet(SextetAt(bs, FullSextets(|bs|)), urlSafe)] + Padding(|bs| % 3)
  }

  /** A character of the text in the given alphabet: one of its 64, the padding, or a line feed. */
  predicate Proper(c: char, urlSafe: bool) {
    c in (if urlSafe then URLSAFE else STANDARD) || c == '=' || c == '\n'
  }

  /** A text holds no character of the other alphabet, and line feeds exactly behind each 76 characters. */
  lemma TextIsProper(bs: seq<Byte>, urlSafe: bool, i: nat)
    requires i < |Text(bs, urlSafe)|
    ensures Proper(Text(bs, urlSafe)[i], urlSafe)
    ensures Text(bs, urlSafe)[i] == '\n' <==> i % 77 == 76 && i < |Body(bs, urlSafe)|
    ensures Text(bs, urlSafe)[i] == '=' ==> |bs| % 3 != 0 && i > |Body(bs, urlSafe)|
  {
    hide SextetAt, FullSextets, WithBreaks, Alphabet;
    var s := Body(bs, urlSafe);
    if i < |s| {
      assert Text(bs, urlSafe)[i] == s[i] == BodyChar(bs, urlSafe, i);
      AlphabetIs(SextetAt(bs, SextetNumber(i)), urlSafe);
      FromAlphabetInverts(SextetAt(bs, SextetNumber(i)), urlSafe);
    } else {
      AlphabetIs(SextetAt(bs, FullSextets(|bs|)), urlSafe);
      FromAlphabetInverts(SextetAt(bs, FullSextets(|bs|)), urlSafe);
    }
  }

  lemma ShiftedBack(x: int, n: int)
    requires n == 2 || n == 4
    ensures Shr(Shl(x, 6 - n), 6 - n) == x
  {
  }

  // ---------- where characters go ----------

  lemma SextetInRange(f: nat, i: nat)
    requires i < WithBreaks(f) && i % 77 != 76
    ensures SextetNumber(i) < f
  {
    var b, t := f / 76, f % 76;
    var a, r := i / 77, i % 77;
    assert 77 * a + r < 77 * b + t;
    assert a <= b;
  }

  lemma SextetNumberStep(i: nat)
    ensures SextetNumber(i + 1) == if i % 77 == 76 then SextetNumber(i) else SextetNumber(i) + 1
  {
  }

  /** The next character never falls on a line break, and it carries sextet number f. */
  lemma NextPlace(f: nat)
    ensures WithBreaks(f) % 77 == f % 76 && SextetNumber(WithBreaks(f)) == f
  {
    var b, t := f / 76, f % 76;
    assert WithBreaks(f) == 77 * b + t;
  }

  lemma OneMore(f: nat)
    requires f % 4 != 3
    ensures WithBreaks(f + 1) == WithBreaks(f) + 1
  {
    var b, t := f / 76, f % 76;
    LinePlace(b, t);
    LinePlace(b, t + 1);
    assert f + 1 == 76 * b + (t + 1);
  }

  lemma LinePlace(b: nat, t: nat)
    requires t < 77
    ensures (76 * b + t) % 4 == t % 4
    ensures t < 76 ==> (76 * b + t) / 76 == b && (76 * b + t) % 76 == t
  {
    FoursOnly(19 * b, t);
  }

  lemma FoursOnly(q: nat, t: nat)
    ensures (4 * q + t) % 4 == t % 4
  {
  }

  lemma TwoMore(f: nat)
    requires f % 4 == 2
    ensures WithBreaks(f + 2) == WithBreaks(f) + 2 + (if (f + 2) % 76 == 0 then 1 else 0)
    ensures (f + 2) % 76 == 0 <==> f % 76 == 74
  {
    var b, t := f / 76, f % 76;
    LinePlace(b, t);
    assert f + 2 == 76 * b + (t + 2);
    if t < 74 { LinePlace(b, t + 2); } else { LinePlace(b + 1, 0); }
  }

  lemma SextetKept(bs: seq<Byte>, b: Byte, k: nat)
    requires k < FullSextets(|bs|)
    ensures SextetAt(bs + [b], k) == SextetAt(bs, k)
  {
    var q, m := k / 4, |bs| / 3;
    assert |bs| == 3 * m + |bs| % 3;
    assert q <= m;
  }

  lemma BodyCharKept(bs: seq<Byte>, b: Byte, urlSafe: bool, i: nat)
    requires i < WithBreaks(FullSextets(|bs|))
    ensures BodyChar(bs + [b], urlSafe, i) == BodyChar(bs, urlSafe, i)
  {
    if i % 77 != 76 {
      SextetInRange(FullSextets(|bs|), i);
      SextetKept(bs, b, SextetNumber(i));
    }
  }

  /** The characters one more byte adds to the body, line break included. */
  function Added(bs: seq<Byte>, b: Byte, urlSafe: bool): string {
    var f := FullSextets(|bs|);
    if |bs| % 3 != 2 then
      [Alphabet(SextetAt(bs + [b], f), urlSafe)]
    else
      [Alphabet(SextetAt(bs + [b], f), urlSafe), Alphabet(SextetAt(bs + [b], f + 1), urlSafe)] +
      (if (f + 2) % 76 == 0 then "\n" else "")
  }

  lemma FullSextetsGrow(n: nat)
    ensures FullSextets(n + 1) == FullSextets(n) + (if n % 3 == 2 then 2 else 1)
    ensures FullSextets(n) % 4 == n % 3
  {
  }

  /** The line-break rule of the writer: a break follows when the body has come to 76 past a multiple of 77. */
  lemma BreakRule(n: nat)
    ensures var l := WithBreaks(FullSextets(n)); var f := FullSextets(n);
      if n % 3 == 2 then ((l + 2) % 77 == 76 <==> (f + 2) % 76 == 0) else (l + 1) % 77 != 76
  {
    hide FullSextets, WithBreaks;
    var f := FullSextets(n);
    FullSextetsGrow(n);
    NextPlace(f);
    NearLineEnd(WithBreaks(f), f);
  }

  lemma NearLineEnd(l: nat, f: nat)
    requires l % 77 == f % 76
    ensures f % 4 == 2 ==> ((l + 2) % 77 == 76 <==> (f + 2) % 76 == 0)
    ensures f % 4 < 2 ==> (l + 1) % 77 != 76
  {
    ResidueMod4(f);
    if f % 4 == 2 {
      TwoMore(f);
      ShiftedResidue(l, f % 76, 2);
    } else if f % 4 < 2 {
      ShiftedResidue(l, f % 76, 1);
    }
  }

  lemma ResidueMod4(f: nat)
    ensures f % 76 % 4 == f % 4
    ensures f % 4 == 2 ==> f % 76 <= 74
    ensures f % 4 < 2 ==> f % 76 <= 73
  {
    assert f == 76 * (f / 76) + f % 76;
  }

  lemma ShiftedResidue(l: nat, t: nat, d: nat)
    requires l % 77 == t && t + d < 77
    ensures (l + d) % 77 == t + d
  {
  }

  lemma GrownLength(bs: seq<Byte>, b: Byte, urlSafe: bool)
    ensures WithBreaks(FullSextets(|bs| + 1)) == WithBreaks(FullSextets(|bs|)) + |Added(bs, b, urlSafe)|
  {
    FullSextetsGrow(|bs|);
    if |bs| % 3 == 2 { TwoMore(FullSextets(|bs|)); } else { OneMore(FullSextets(|bs|)); }
  }

  /** The places just after the body of f sextets, when the group of f is two sextets short of full. */
  lemma PlacesAfter(f: nat)
    requires f % 4 == 2
    ensures var l := WithBreaks(f);
      && (l + 1) % 77 != 76 && SextetNumber(l + 1) == f + 1
      && ((f + 2) % 76 == 0 ==> (l + 2) % 77 == 76)
  {
    var l := WithBreaks(f);
    NextPlace(f);
    ResidueMod4(f);
    TwoMore(f);
    SextetNumberStep(l);
    ShiftedResidue(l, f % 76, 1);
    ShiftedResidue(l, f % 76, 2);
  }

  lemma AddedChar(bs: seq<Byte>, b: Byte, urlSafe: bool, d: nat)
    requires d < |Added(bs, b, urlSafe)|
    ensures BodyChar(bs + [b], urlSafe, WithBreaks(FullSextets(|bs|)) + d) == Added(bs, b, urlSafe)[d]
  {
    hide Alphabet, SextetAt, WithBreaks, SextetNumber, FullSextets;
    var f := FullSextets(|bs|);
    FullSextetsGrow(|bs|);
    NextPlace(f);
    if d > 0 { PlacesAfter(f); }
  }

  lemma BodyGrows(bs: seq<Byte>, b: Byte, urlSafe: bool)
    ensures Body(bs + [b], urlSafe) == Body(bs, urlSafe) + Added(bs, b, urlSafe)
  {
    hide Alphabet, SextetOf, BodyChar, FullSextets, WithBreaks, Added;
    var l := WithBreaks(FullSextets(|bs|));
    var less, more, added := Body(bs, urlSafe), Body(bs + [b], urlSafe), Added(bs, b, urlSafe);
    GrownLength(bs, b, urlSafe);
    forall i | 0 <= i < |more|
      ensures more[i] == (less + added)[i]
    {
      if i < l { BodyCharKept(bs, b, urlSafe, i); } else { AddedChar(bs, b, urlSafe, i - l); }
    }
  }

  /** No line of the text exceeds 76 characters: every 77th body character is the line feed, and the
    * final partial group fits on the line it starts on. */
  lemma LinesAtMost76(bs: seq<Byte>, urlSafe: bool, i: nat)
    requires i + 76 < |Text(bs, urlSafe)|
    ensures exists j :: i <= j <= i + 76 && Text(bs, urlSafe)[j] == '\n'
  {
    hide FullSextets, WithBreaks, SextetAt, Alphabet;
    var j := i + (76 - i % 77);
    assert j % 77 == 76;
    var f := FullSextets(|bs|);
    var l := WithBreaks(f);
    NextPlace(f);
    FullSextetsGrow(|bs|);
    ResidueMod4(f);
    if j >= l {
      NextBreak(l, f % 76, j);
      assert false;
    }
    assert Body(bs, urlSafe)[j] == BodyChar(bs, urlSafe, j) == '\n';
    assert i <= j <= i + 76 && Text(bs, urlSafe)[j] == '\n';
  }

  lemma NextBreak(l: nat, t: nat, j: nat)
    requires l % 77 == t && t < 76 && l <= j && j % 77 == 76
    ensures j >= l + (76 - t)
  {
  }

  // ---------- the decoder ----------

  /** Bytes produced, bits the next byte still needs (8 when none are held) and the bits held. */
  datatype Decoder = Decoder(out: seq<Byte>, need: int, held: int) {
    ghost predicate Ok() {
      && need in {2, 4, 6, 8}
      && 0 <= held < Shl(1, 8 - need)
    }
  }

  /** One sextet. */
  function Accept(d: Decoder, v: int): (r: Decoder)
    requires d.Ok() && 0 <= v < 64
    ensures r.Ok()
    ensures r.out == d.out || (|r.out| == |d.out| + 1 && d.out <= r.out)
  {
    if d.need == 8 then Decoder(d.out, 2, v)
    else Decoder(d.out + [Shl(d.held, d.need) + Shr(v, 6 - d.need)], d.need + 2, LowBits(v, 6 - d.need))
  }

  /** One character; anything the table does not know is skipped. */
  function Step(d: Decoder, c: char): (r: Decoder)
    requires d.Ok()
    ensures r.Ok()
    ensures r.out == d.out || (|r.out| == |d.out| + 1 && d.out <= r.out)
  {
    if FromAlphabet(c) < 0 then d else Accept(d, FromAlphabet(c))
  }

  function Run(s: string): (d: Decoder)
    ensures d.Ok()
  {
    if s == "" then Decoder([], 8, 0) else Step(Run(s[..|s| - 1]), s[|s| - 1])
  }

  /** All bytes of a stream: those of its characters, then the byte completed by the partial sextet. */
  function Contents(s: string, extra: int, value: int): (bs: seq<Byte>)
    requires extra > 0 ==> Run(s).need == extra && 0 <= value < Shl(1, extra)
  {
    var d := Run(s);
    if extra > 0 then d.out + [Shl(d.held, extra) + value] else d.out
  }

  lemma RunStep(s: string, p: nat)
    requires p < |s|
    ensures Run(s[..p + 1]) == Step(Run(s[..p]), s[p])
  {
    assert s[..p + 1][..p] == s[..p];
  }

  lemma {:induction false} RunGrows(s: string, p: nat, q: nat)
    requires p <= q <= |s|
    ensures Run(s[..p]).out <= Run(s[..q]).out
    decreases q
  {
    if p < q {
      RunStep(s, q - 1);
      RunGrows(s, p, q - 1);
    }
  }

  // ---------- decoding the text ----------

  /** What the decoder has done after sextet r of group g. */
  function AfterGroup(bs: seq<Byte>, g: nat, r: nat): Decoder
    requires r < 4 && 3 * g + (if r == 0 then 0 else r - 1) <= |bs|
  {
    if r == 0 then Decoder(bs[..3 * g], 8, 0)
    else if r == 1 then Decoder(bs[..3 * g], 2, SextetOf(bs, g, 0))
    else if r == 2 then Decoder(bs[..3 * g + 1], 4, SextetOf(bs, g, 1) % 16)
    else Decoder(bs[..3 * g + 2], 6, SextetOf(bs, g, 2) % 4)
  }

  function After(bs: seq<Byte>, k: nat): Decoder
    requires k <= FullSextets(|bs|)
  {
    GroupInRange(|bs|, k);
    AfterGroup(bs, k / 4, k % 4)
  }

  lemma GroupInRange(n: nat, k: nat)
    requires k <= FullSextets(n)
    ensures 3 * (k / 4) + (if k % 4 == 0 then 0 else k % 4 - 1) <= n
    ensures k < FullSextets(n) ==> 3 * (k / 4) + (if k % 4 == 0 then 0 else k % 4 - 1) < n
  {
    var g, m := k / 4, n / 3;
    assert k == 4 * g + k % 4 && n == 3 * m + n % 3;
    assert g <= m;
  }

  lemma SplitBits(a: Byte, b: Byte)
    ensures (a % 4 * 16 + b / 16) / 16 == a % 4 && (a % 4 * 16 + b / 16) % 16 == b / 16
    ensures (a % 16 * 4 + b / 64) / 4 == a % 16 && (a % 16 * 4 + b / 64) % 4 == b / 64
    ensures a / 16 * 16 + a % 16 == a && a / 64 * 64 + a % 64 == a
  {
  }

  lemma AfterGroupStep(bs: seq<Byte>, g: nat, r: nat)
    requires r < 4 && 3 * g + (if r == 0 then 0 else r - 1) < |bs|
    ensures AfterGroup(bs, g, r).Ok()
    ensures Accept(AfterGroup(bs, g, r), SextetOf(bs, g, r))
            == if r == 3 then AfterGroup(bs, g + 1, 0) else AfterGroup(bs, g, r + 1)
  {
    var d := AfterGroup(bs, g, r);
    if r == 1 {
      SplitBits(bs[3 * g], At(bs, 3 * g + 1));
      assert Shl(d.held, 2) + Shr(SextetOf(bs, g, 1), 4) == bs[3 * g];
      assert bs[..3 * g + 1] == bs[..3 * g] + [bs[3 * g]];
    } else if r == 2 {
      SplitBits(bs[3 * g], bs[3 * g + 1]);
      SplitBits(bs[3 * g + 1], At(bs, 3 * g + 2));
      assert Shl(d.held, 4) + Shr(SextetOf(bs, g, 2), 2) == bs[3 * g + 1];
      assert bs[..3 * g + 2] == bs[..3 * g + 1] + [bs[3 * g + 1]];
    } else if r == 3 {
      SplitBits(bs[3 * g + 1], bs[3 * g + 2]);
      assert Shl(d.held, 6) + Shr(SextetOf(bs, g, 3), 0) == bs[3 * g + 2];
      assert bs[..3 * g + 3] == bs[..3 * g + 2] + [bs[3 * g + 2]];
    }
  }

  lemma AfterStep(bs: seq<Byte>, k: nat, urlSafe: bool)
    requires k < FullSextets(|bs|)
    ensures After(bs, k).Ok()
    ensures Step(After(bs, k), Alphabet(SextetAt(bs, k), urlSafe)) == After(bs, k + 1)
  {
    GroupInRange(|bs|, k);
    FromAlphabetInverts(SextetAt(bs, k), urlSafe);
    AfterGroupStep(bs, k / 4, k % 4);
    assert if k % 4 == 3 then (k + 1) / 4 == k / 4 + 1 && (k + 1) % 4 == 0
           else (k + 1) / 4 == k / 4 && (k + 1) % 4 == k % 4 + 1;
  }

  lemma RunBodyStep(bs: seq<Byte>, urlSafe: bool, i: nat)
    requires i < WithBreaks(FullSextets(|bs|))
    requires SextetNumber(i) <= FullSextets(|bs|)
    requires Run(Body(bs, urlSafe)[..i]) == After(bs, SextetNumber(i))
    ensures SextetNumber(i + 1) <= FullSextets(|bs|)
    ensures Run(Body(bs, urlSafe)[..i + 1]) == After(bs, SextetNumber(i + 1))
  {
    hide Alphabet, SextetOf, FullSextets, WithBreaks, SextetNumber, After, Accept, SextetAt;
    var s := Body(bs, urlSafe);
    RunStep(s, i);
    SextetNumberStep(i);
    assert s[i] == BodyChar(bs, urlSafe, i);
    if i % 77 != 76 {
      SextetInRange(FullSextets(|bs|), i);
      AfterStep(bs, SextetNumber(i), urlSafe);
    }
  }

  lemma {:induction false} RunBody(bs: seq<Byte>, urlSafe: bool, i: nat)
    requires i <= WithBreaks(FullSextets(|bs|))
    ensures SextetNumber(i) <= FullSextets(|bs|)
    ensures Run(Body(bs, urlSafe)[..i]) == After(bs, SextetNumber(i))
    decreases i
  {
    if i == 0 {
      RunStarts(bs);
      assert Body(bs, urlSafe)[..0] == "";
    } else {
      hide Run, After, SextetNumber, WithBreaks, FullSextets, BodyChar;
      RunBody(bs, urlSafe, i - 1);
      RunBodyStep(bs, urlSafe, i - 1);
    }
  }

  lemma RunStarts(bs: seq<Byte>)
    ensures SextetNumber(0) == 0 && Run("") == After(bs, 0)
  {
  }

  lemma AfterAll(bs: seq<Byte>)
    ensures var d := After(bs, FullSextets(|bs|)); var r := |bs| % 3;
      && d.need == (if r == 0 then 8 else 2 * r)
      && d.out == bs[..|bs| - (if r == 0 then 0 else 1)]
      && (r > 0 ==> Shl(d.held, 2 * r) + ExtraValue(bs) == bs[|bs| - 1])
  {
    var m, r := |bs| / 3, |bs| % 3;
    assert |bs| == 3 * m + r;
    assert FullSextets(|bs|) == 4 * m + r;
    hide FullSextets;
    Quarter(m, r);
    assert After(bs, 4 * m + r) == AfterGroup(bs, m, r);
    hide After;
    AfterLastGroup(bs, m, r);
  }

  lemma Quarter(m: nat, r: nat)
    requires r < 4
    ensures (4 * m + r) / 4 == m && (4 * m + r) % 4 == r
  {
  }

  lemma AfterLastGroup(bs: seq<Byte>, m: nat, r: nat)
    requires r < 3 && |bs| == 3 * m + r
    ensures var d := AfterGroup(bs, m, r);
      && d.need == (if r == 0 then 8 else 2 * r)
      && d.out == bs[..|bs| - (if r == 0 then 0 else 1)]
      && (r > 0 ==> Shl(d.held, 2 * r) + ExtraValue(bs) == bs[|bs| - 1])
  {
  }

  /** Both alphabets, every byte sequence: the decoder recovers the bytes. */
  lemma DecodeBody(bs: seq<Byte>, urlSafe: bool)
    ensures ExtraBits(|bs|) > 0 ==> Run(Body(bs, urlSafe)).need == ExtraBits(|bs|)
    ensures Contents(Body(bs, urlSafe), ExtraBits(|bs|), ExtraValue(bs)) == bs
  {
    hide Alphabet, SextetOf, BodyChar, FullSextets, WithBreaks, Body, After, Step;
    var f, s := FullSextets(|bs|), Body(bs, urlSafe);
    RunBody(bs, urlSafe, |s|);
    NextPlace(f);
    AfterAll(bs);
    assert s[..|s|] == s;
    if |bs| % 3 > 0 {
      assert bs == bs[..|bs| - 1] + [bs[|bs| - 1]];
    }
  }

  // ---------- reading from a cursor ----------

  /** The partial sextet kept apart from the characters fits them. */
  ghost predicate Fits(s: string, extra: int, value: int) {
    extra in {0, 2, 4} && (extra > 0 ==> Run(s).need == extra && 0 <= value < Shl(1, extra))
  }

  /** The bytes a cursor at p still delivers; past the end, the partial sextet has been used up. */
  ghost function Unread(s: string, p: nat, extra: int, value: int): seq<Byte>
    requires Fits(s, extra, value)
  {
    if p > |s| then []
    else
      RunGrows(s, p, |s|);
      assert s[..|s|] == s;
      Contents(s, extra, value)[|Run(s[..p]).out|..]
  }

  /** Characters remain at p, and the last one completes no byte. */
  ghost predicate Idle(s: string, p: nat, extra: int) {
    extra == 0 && p < |s| && Run(s).out == Run(s[..|s| - 1]).out
  }

  /** A byte is left or the cursor idles exactly if characters are left or the partial sextet is unused. */
  lemma CursorValid(s: string, p: nat, extra: int, value: int)
    requires Fits(s, extra, value)
    ensures (Unread(s, p, extra, value) != [] || Idle(s, p, extra)) <==> (p < |s| || (p == |s| && extra != 0))
  {
    hide Run;
    assert s[..|s|] == s;
    if p <= |s| { RunGrows(s, p, |s|); }
    if p < |s| {
      RunGrows(s, p, |s| - 1);
      RunGrows(s, |s| - 1, |s|);
    }
  }

  /** A sextet that starts a byte delivers nothing yet. */
  lemma CursorHolds(s: string, p: nat, q: nat, v: int, extra: int, value: int)
    requires Fits(s, extra, value)
    requires p <= q < |s| && 0 <= v < 64
    requires Run(s[..p]).need == 8 && Run(s[..q + 1]) == Accept(Run(s[..p]), v)
    ensures Unread(s, q + 1, extra, value) == Unread(s, p, extra, value)
    ensures Unread(s, p, extra, value) != [] ==> Idle(s, q + 1, extra) == Idle(s, p, extra)
  {
    hide Run;
    CursorValid(s, q + 1, extra, value);
  }

  /** From p, the characters before q carry no sextet and the one at q carries v, which completes a byte. */
  lemma CursorDelivers(s: string, p: nat, q: nat, v: int, extra: int, value: int)
    requires Fits(s, extra, value)
    requires p <= q < |s| && 0 <= v < 64
    requires Run(s[..q]) == Run(s[..p]) && Run(s[..p]).need != 8
    requires Run(s[..q + 1]) == Accept(Run(s[..p]), v)
    ensures
      var d := Run(s[..p]);
      Unread(s, p, extra, value) == [Shl(d.held, d.need) + Shr(v, 6 - d.need)] + Unread(s, q + 1, extra, value)
    ensures Idle(s, q + 1, extra) == Idle(s, p, extra)
  {
    hide Run, Shl, Shr, LowBits;
    var d, e, all := Run(s[..p]), Run(s[..q + 1]), Contents(s, extra, value);
    var k := |d.out|;
    assert e.out[k] == Shl(d.held, d.need) + Shr(v, 6 - d.need);
    assert s[..|s|] == s;
    RunGrows(s, q + 1, |s|);
    assert all[k] == e.out[k];
    assert all[k..] == [all[k]] + all[k + 1..];
    if q + 1 == |s| {
      assert s[..|s| - 1] == s[..q];
      assert |Run(s).out| == k + 1;
    }
  }

  lemma UnreadAt(s: string, p: nat, extra: int, value: int)
    requires Fits(s, extra, value) && p <= |s|
    ensures |Run(s[..p]).out| <= |Contents(s, extra, value)|
    ensures Unread(s, p, extra, value) == Contents(s, extra, value)[|Run(s[..p]).out|..]
  {
    hide Run, Shl;
    RunGrows(s, p, |s|);
    assert s[..|s|] == s;
  }

  lemma ContentsLast(s: string, extra: int, value: int)
    requires Fits(s, extra, value) && extra != 0
    ensures |Run(s).out| < |Contents(s, extra, value)|
    ensures Contents(s, extra, value)[|Run(s).out|..] == [Shl(Run(s).held, extra) + value]
  {
    hide Run, Shl;
  }

  /** At the end of the characters the partial sextet completes one last byte. */
  lemma CursorFinishes(s: string, p: nat, extra: int, value: int)
    requires Fits(s, extra, value) && extra != 0
    requires p <= |s| && Run(s) == Run(s[..p])
    ensures Unread(s, p, extra, value) == [Shl(Run(s).held, extra) + Shr(Shl(value, 6 - extra), 6 - extra)]
  {
    hide Run, Shl, Shr, Contents, Unread;
    ShiftedBack(value, extra);
    ContentsLast(s, extra, value);
    UnreadAt(s, p, extra, value);
  }

  /** The sextets and leftovers the writer computes are those of the longer byte sequence. */
  lemma WriterSextets(bs: seq<Byte>, b: Byte)
    ensures
      var n, f, more := ExtraBits(|bs|) + 2, FullSextets(|bs|), bs + [b];
      && SextetAt(more, f) == Shr(b, n) + Shl(ExtraValue(bs), 8 - n)
      && (n == 6 ==> SextetAt(more, f + 1) == LowBits(b, 6))
      && ExtraBits(|more|) == (if n == 6 then 0 else n)
      && ExtraValue(more) == (if n == 6 then 0 else LowBits(b, n))
  {
    var m, r, more := |bs| / 3, |bs| % 3, bs + [b];
    var f := FullSextets(|bs|);
    assert f / 4 == m && f % 4 == r;
    if r == 2 {
      assert (f + 1) / 4 == m && (f + 1) % 4 == 3;
      SplitBits(bs[3 * m + 1], b);
    } else if r == 1 {
      SplitBits(bs[3 * m], b);
    }
  }

  // ---------- reopening a text ----------

  /** The table's entry for the character that many places from the end; a lookup outside the table or the
    * text is undefined, which the shift that follows turns into 0. */
  function PartialEntry(t: string, cutoff: nat): int {
    if cutoff == 0 || cutoff > |t| then 0
    else if '+' <= t[|t| - cutoff] <= 'z' then FromAlphabet(t[|t| - cutoff])
    else 0
  }

  /** The string without its last characters, empty if there are not that many. */
  function CutOff(t: string, cutoff: nat): string {
    if cutoff > |t| then "" else t[..|t| - cutoff]
  }

  /** What is kept of any text: the string without its partial sextet, and that sextet's bits. */
  function Strip(t: string): (r: (string, int, int))
  {
    var len := |t|;
    if len == 0 || t[len - 1] != '=' then (t, 0, 0)
    else if len >= 2 && t[len - 2] == '=' then (CutOff(t, 3), 2, Shr(PartialEntry(t, 3), 4))
    else (CutOff(t, 2), 4, Shr(PartialEntry(t, 2), 2))
  }

  /** Base64 text as the format asks for: padding only after a group that needs it. */
  predicate WellPadded(t: string) {
    var len := |t|;
    len > 0 && t[len - 1] == '=' ==>
      && len >= 3
      && (t[len - 2] == '=' ==> FromAlphabet(t[len - 3]) >= 0 && Run(t[..len - 3]).need == 2)
      && (t[len - 2] != '=' ==> FromAlphabet(t[len - 2]) >= 0 && Run(t[..len - 2]).need == 4)
  }

  lemma LastBodyCharIsNotPadding(bs: seq<Byte>, urlSafe: bool)
    requires Body(bs, urlSafe) != ""
    ensures var s := Body(bs, urlSafe); s[|s| - 1] != '='
  {
    var i := |Body(bs, urlSafe)| - 1;
    if i % 77 != 76 {
      FromAlphabetInverts(SextetAt(bs, SextetNumber(i)), urlSafe);
    }
  }

  lemma PartialSextet(bs: seq<Byte>)
    requires |bs| % 3 != 0
    ensures SextetAt(bs, FullSextets(|bs|)) == Shl(ExtraValue(bs), 6 - ExtraBits(|bs|))
  {
    var m := |bs| / 3;
    var f := FullSextets(|bs|);
    assert f / 4 == m && f % 4 == |bs| % 3;
  }

  /** Reopening what the writer produced gives back the writer's state, partial bits included. */
  lemma StripText(bs: seq<Byte>, urlSafe: bool)
    ensures WellPadded(Text(bs, urlSafe))
    ensures Strip(Text(bs, urlSafe)) == (Body(bs, urlSafe), ExtraBits(|bs|), ExtraValue(bs))
  {
    hide Alphabet, SextetAt, FullSextets, ExtraValue, WithBreaks;
    var t, s := Text(bs, urlSafe), Body(bs, urlSafe);
    var v := SextetAt(bs, FullSextets(|bs|));
    FromAlphabetInverts(v, urlSafe);
    DecodeBody(bs, urlSafe);
    if |bs| % 3 == 0 {
      if s != "" { LastBodyCharIsNotPadding(bs, urlSafe); }
    } else {
      PartialSextet(bs);
      FullSextetsGrow(|bs|);
      assert t == s + [Alphabet(v, urlSafe)] + Padding(|bs| % 3);
      if |bs| % 3 == 1 {
        assert t[..|t| - 3] == s;
      } else {
        assert t[..|t| - 2] == s;
      }
    }
  }

  /** A phantom read exists exactly for a positive multiple of 57 bytes: the text then ends in a line break. */
  lemma TrailingBreak(bs: seq<Byte>, urlSafe: bool)
    ensures
      var s := Body(bs, urlSafe);
      (ExtraBits(|bs|) == 0 && |s| > 0 && Run(s).out == Run(s[..|s| - 1]).out)
      <==> (|bs| > 0 && |bs| % 57 == 0)
  {
    hide Alphabet, SextetOf, BodyChar, After, Step, SextetAt, WithBreaks, FullSextets, SextetNumber, Body, Run;
    var s := Body(bs, urlSafe);
    BodyIsEmpty(|bs|);
    if |bs| > 0 && |bs| % 3 == 0 {
      var f := FullSextets(|bs|);
      NextPlace(f);
      RunBody(bs, urlSafe, |s|);
      RunBody(bs, urlSafe, |s| - 1);
      SextetNumberStep(|s| - 1);
      assert s[..|s|] == s;
      MultipleOf57(|bs|, f);
      LastSextetEmits(bs);
    }
  }

  lemma BodyIsEmpty(n: nat)
    ensures WithBreaks(FullSextets(n)) == 0 <==> n == 0
    ensures n % 57 == 0 ==> n % 3 == 0
  {
  }

  lemma LastSextetEmits(bs: seq<Byte>)
    requires |bs| % 3 == 0 && |bs| > 0
    ensures var f := FullSextets(|bs|); f > 0 && |After(bs, f - 1).out| == |bs| - 1 && |After(bs, f).out| == |bs|
  {
    var m := |bs| / 3;
    assert FullSextets(|bs|) == 4 * m;
    assert (4 * m - 1) / 4 == m - 1 && (4 * m - 1) % 4 == 3;
  }

  lemma MultipleOf57(n: nat, f: nat)
    requires n % 3 == 0 && n > 0 && f == FullSextets(n)
    ensures (WithBreaks(f) - 1) % 77 == 76 <==> n % 57 == 0
  {
    NextPlace(f);
    assert f == n / 3 * 4;
    LineEnds(n / 3, f % 76, WithBreaks(f));
  }

  lemma LineEnds(g: nat, t: nat, l: nat)
    requires g > 0 && t == 4 * g % 76 && l % 77 == t && l > 0
    ensures (l - 1) % 77 == 76 <==> 3 * g % 57 == 0
  {
    Scaled(g, 4);
    Scaled(g, 3);
    LastBefore(l);
  }

  lemma Scaled(g: nat, k: nat)
    requires k == 3 || k == 4
    ensures k * g % (19 * k) == k * (g % 19)
  {
    assert k * g == 19 * k * (g / 19) + k * (g % 19);
  }

  lemma LastBefore(l: nat)
    requires l > 0
    ensures (l - 1) % 77 == 76 <==> l % 77 == 0
  {
  }

  /** What a stream opened on a text delivers. */
  ghost function Opened(t: string): View
    requires WellPadded(t)
  {
    var (s, extra, value) := Strip(t);
    Base64View(Contents(s, extra, value), Idle(s, 0, extra))
  }

  /** For every byte sequence and both alphabets: reading the text gives back the bytes, and the stream
    * then claims to be valid once more exactly if their number is a positive multiple of 57. */
  lemma OpenText(bs: seq<Byte>, urlSafe: bool)
    ensures WellPadded(Text(bs, urlSafe))
    ensures Opened(Text(bs, urlSafe)) == Base64View(bs, |bs| > 0 && |bs| % 57 == 0)
  {
    hide Body, Text, Run, Contents, ExtraValue;
    StripText(bs, urlSafe);
    DecodeBody(bs, urlSafe);
    TrailingBreak(bs, urlSafe);
  }
}
