/**
 GUIDs as text. Printing gives the canonical lower-case 8-4-4-4-12 form; parsing accepts
 surrounding blanks, braces, either case, and (because of the integer parser it uses) a
 plus sign in front of a number.
 */
module GuidText {
  import opened Common

  type Ascii = c: char | c as int < 128 witness 'a'
  type Text = seq<Ascii>

  type Data4 = d: seq<Byte> | |d| == 8 witness [0, 0, 0, 0, 0, 0, 0, 0]

  datatype Guid = Guid(data1: nat, data2: nat, data3: nat, data4: Data4)

  predicate InRange(g: Guid) {
    g.data1 < U32 && g.data2 < 0x1_0000 && g.data3 < 0x1_0000
  }

  // ---------------------------------------------------------------- hexadecimal numbers

  predicate IsHex(c: Ascii) {
    '0' <= c <= '9' || 'a' <= c <= 'f' || 'A' <= c <= 'F'
  }

  function Value(c: Ascii): (r: nat)
    requires IsHex(c)
    ensures r < 16
  {
    if c <= '9' then c as int - '0' as int
    else if c <= 'F' then c as int - 'A' as int + 10
    else c as int - 'a' as int + 10
  }

  function Digit(n: nat): (c: Ascii)
    requires n < 16
    ensures IsHex(c) && Value(c) == n
  {
    if n < 10 then (n + '0' as int) as char else (n - 10 + 'a' as int) as char
  }

  function Lower(c: Ascii): (r: Ascii)
    ensures IsHex(r) == IsHex(c) && (IsHex(c) ==> Value(r) == Value(c) && r == Digit(Value(c)))
    ensures (r == '-') == (c == '-') && (r == '+') == (c == '+')
  {
    if 'A' <= c <= 'Z' then (c as int - 'A' as int + 'a' as int) as char else c
  }

  /** The digits in order, in both cases. */
  lemma DigitsInOrder(i: nat)
    requires i < 16
    ensures Digit(i) == "0123456789abcdef"[i]
    ensures IsHex("0123456789abcdef"[i]) && Value("0123456789abcdef"[i]) == i
    ensures IsHex("0123456789ABCDEF"[i]) && Value("0123456789ABCDEF"[i]) == i
  {
  }

  /** Nothing else is a digit. */
  lemma OnlyDigits(c: Ascii)
    ensures IsHex(c) <==> c in "0123456789abcdefABCDEF"
  {
  }

  predicate AllHex(s: Text) {
    forall c <- s :: IsHex(c)
  }

  function Number(s: Text): nat
    requires AllHex(s)
  {
    if s == [] then 0
    else
      assert s[|s| - 1] in s;
      16 * Number(s[..|s| - 1]) + Value(s[|s| - 1])
  }

  function Pow16(n: nat): (r: nat)
    ensures r > 0
  {
    if n == 0 then 1 else 16 * Pow16(n - 1)
  }

  lemma {:induction false} NumberFits(s: Text)
    requires AllHex(s)
    ensures Number(s) < Pow16(|s|)
  {
    if s != [] {
      NumberFits(s[..|s| - 1]);
    }
  }

  lemma Widths()
    ensures Pow16(2) == 0x100 && Pow16(4) == 0x1_0000 && Pow16(8) == U32
  {
    assert Pow16(2) == 0x100;
    assert Pow16(4) == 0x1_0000;
    assert Pow16(6) == 0x100_0000;
  }

  /** The last `width` digits of `n`, lower case. */
  function Hex(n: nat, width: nat): (s: Text)
    ensures |s| == width
  {
    if width == 0 then [] else Hex(n / 16, width - 1) + [Digit(n % 16)]
  }

  lemma {:induction false} HexIsHex(n: nat, width: nat)
    ensures AllHex(Hex(n, width)) && forall c <- Hex(n, width) :: Lower(c) == c
  {
    if width > 0 {
      HexIsHex(n / 16, width - 1);
    }
  }

  /** Printing a number that fits and reading it gives the number. */
  lemma {:induction false} NumberOfHex(n: nat, width: nat)
    requires n < Pow16(width)
    ensures AllHex(Hex(n, width)) && Number(Hex(n, width)) == n
  {
    HexIsHex(n, width);
    if width > 0 {
      NumberOfHex(n / 16, width - 1);
      assert Hex(n, width)[..width - 1] == Hex(n / 16, width - 1);
    }
  }

  /** Reading digits and printing the number gives the digits in lower case. */
  lemma {:induction false} HexOfNumber(s: Text)
    requires AllHex(s)
    ensures Hex(Number(s), |s|) == Lowered(s)
  {
    if s != [] {
      var n := |s| - 1;
      HexOfNumber(s[..n]);
      assert s[n] in s;
      assert Number(s) / 16 == Number(s[..n]) && Number(s) % 16 == Value(s[n]);
      assert Lowered(s) == Lowered(s[..n]) + [Lower(s[n])];
    }
  }

  function Lowered(s: Text): (r: Text)
    ensures |r| == |s| && forall i :: 0 <= i < |s| ==> r[i] == Lower(s[i])
  {
    seq(|s|, i requires 0 <= i < |s| => Lower(s[i]))
  }

  /** The digits of a number after an optional plus sign. */
  function Digits(s: Text): Text {
    if s != [] && s[0] == '+' then s[1..] else s
  }

  /** The integer parser: at least one digit, after an optional plus sign. */
  function FromStrRadix(s: Text): (r: Option<nat>)
    ensures r.Some? ==> AllHex(Digits(s)) && Digits(s) != [] && r.value == Number(Digits(s)) < Pow16(|s|)
    ensures r.Some? ==> '-' !in s
  {
    if Digits(s) == [] || !AllHex(Digits(s)) then None
    else
      NumberFits(Digits(s));
      NoDash(s);
      Some(Number(Digits(s)))
  }

  lemma NoDash(s: Text)
    requires AllHex(Digits(s))
    ensures '-' !in s
    ensures |Digits(s)| <= |s| && Pow16(|Digits(s)|) <= Pow16(|s|)
  {
    assert '-' in s ==> '-' in Digits(s);
  }

  // ---------------------------------------------------------------- what a text denotes

  /** Where the two digits of byte `i` of `data4` stand. */
  function ByteAt(i: nat): (p: nat)
    requires i < 8
    ensures 19 <= p <= 34
  {
    if i < 2 then 19 + 2 * i else 20 + 2 * i
  }

  /** The characters from `i` to `j` are a number with value `n`. */
  predicate FieldIs(body: Text, i: nat, j: nat, n: nat) {
    i <= j <= |body| && FromStrRadix(body[i..j]) == Some(n)
  }

  predicate Dashed(body: Text) {
    |body| == 36 && body[8] == body[13] == body[18] == body[23] == '-'
  }

  /** `body` is an 8-4-4-4-12 spelling of `g`. */
  predicate Denotes(body: Text, g: Guid) {
    && Dashed(body)
    && FieldIs(body, 0, 8, g.data1) && FieldIs(body, 9, 13, g.data2) && FieldIs(body, 14, 18, g.data3)
    && forall i :: 0 <= i < 8 ==> FieldIs(body, ByteAt(i), ByteAt(i) + 2, g.data4[i])
  }

  /** A text denotes at most one GUID, and that one is in range. */
  lemma DenotesOne(body: Text, g: Guid, h: Guid)
    requires Denotes(body, g) && Denotes(body, h)
    ensures g == h && InRange(g)
  {
    Widths();
    assert forall i :: 0 <= i < 8 ==> FieldIs(body, ByteAt(i), ByteAt(i) + 2, g.data4[i]) && FieldIs(body, ByteAt(i), ByteAt(i) + 2, h.data4[i]);
    assert g.data4 == h.data4;
  }

  // ---------------------------------------------------------------- printing

  function Bytes(d: seq<Byte>): (s: Text)
    ensures |s| == 2 * |d|
  {
    if d == [] then [] else Hex(d[0], 2) + Bytes(d[1..])
  }

  lemma {:induction false} BytesAt(d: seq<Byte>, i: nat)
    requires i < |d|
    ensures Bytes(d)[2 * i..2 * i + 2] == Hex(d[i], 2)
  {
    if i > 0 {
      BytesAt(d[1..], i - 1);
      assert Bytes(d)[2..] == Bytes(d[1..]);
      assert Bytes(d)[2 * i..2 * i + 2] == Bytes(d)[2..][2 * (i - 1)..2 * (i - 1) + 2];
    }
  }

  function ToString(g: Guid): Text {
    Hex(g.data1, 8) + "-" + Hex(g.data2, 4) + "-" + Hex(g.data3, 4) + "-" + Bytes(g.data4[..2]) + "-" + Bytes(g.data4[2..])
  }

  /** Where the five fields of a dashed text stand. */
  lemma FieldsStand(a: Text, b: Text, c: Text, d: Text, e: Text, body: Text)
    requires |a| == 8 && |b| == |c| == |d| == 4 && |e| == 12
    requires body == a + "-" + b + "-" + c + "-" + d + "-" + e
    ensures Dashed(body)
    ensures body[0..8] == a && body[9..13] == b && body[14..18] == c && body[19..23] == d && body[24..] == e
  {
  }

  lemma BytesStand(body: Text, i: nat)
    requires |body| == 36 && i < 8
    ensures body[ByteAt(i)..ByteAt(i) + 2] == (body[19..23] + body[24..])[2 * i..2 * i + 2]
    ensures body[ByteAt(i)..ByteAt(i) + 2] == if i < 2 then body[19..23][2 * i..2 * i + 2] else body[24..][2 * (i - 2)..2 * (i - 2) + 2]
  {
  }

  lemma RadixOfHex(n: nat, width: nat)
    requires 0 < width && n < Pow16(width)
    ensures FromStrRadix(Hex(n, width)) == Some(n)
  {
    NumberOfHex(n, width);
    assert Hex(n, width)[0] in Hex(n, width);
  }

  /** Where the printed numbers stand. */
  lemma PrintedFields(g: Guid)
    ensures Dashed(ToString(g))
    ensures ToString(g)[0..8] == Hex(g.data1, 8) && ToString(g)[9..13] == Hex(g.data2, 4) && ToString(g)[14..18] == Hex(g.data3, 4)
    ensures forall i :: 0 <= i < 8 ==> ToString(g)[ByteAt(i)..ByteAt(i) + 2] == Hex(g.data4[i], 2)
  {
    var body := ToString(g);
    FieldsStand(Hex(g.data1, 8), Hex(g.data2, 4), Hex(g.data3, 4), Bytes(g.data4[..2]), Bytes(g.data4[2..]), body);
    hide ToString;
    forall i | 0 <= i < 8
      ensures body[ByteAt(i)..ByteAt(i) + 2] == Hex(g.data4[i], 2)
    {
      BytesStand(body, i);
      if i < 2 {
        BytesAt(g.data4[..2], i);
      } else {
        BytesAt(g.data4[2..], i - 2);
      }
    }
  }

  /** Round trip: the printed form of a GUID denotes it. */
  lemma PrintedDenotes(g: Guid)
    requires InRange(g)
    ensures Denotes(ToString(g), g)
  {
    var body := ToString(g);
    PrintedFields(g);
    Widths();
    RadixOfHex(g.data1, 8);
    RadixOfHex(g.data2, 4);
    RadixOfHex(g.data3, 4);
    hide ToString, Hex;
    forall i | 0 <= i < 8
      ensures FieldIs(body, ByteAt(i), ByteAt(i) + 2, g.data4[i])
    {
      RadixOfHex(g.data4[i], 2);
    }
  }

  // ---------------------------------------------------------------- case and plus signs

  lemma {:induction false} NumberOfLowered(s: Text)
    requires AllHex(s)
    ensures AllHex(Lowered(s)) && Number(Lowered(s)) == Number(s)
  {
    if s != [] {
      var n := |s| - 1;
      assert s[n] in s;
      NumberOfLowered(s[..n]);
      assert Lowered(s)[..n] == Lowered(s[..n]);
    }
  }

  lemma RadixOfLowered(s: Text)
    ensures FromStrRadix(Lowered(s)) == FromStrRadix(s)
  {
    assert Digits(Lowered(s)) == Lowered(Digits(s));
    var d := Digits(s);
    assert forall i :: 0 <= i < |d| ==> IsHex(Lowered(d)[i]) == IsHex(d[i]);
    if AllHex(d) {
      NumberOfLowered(d);
    } else {
      var i :| 0 <= i < |d| && !IsHex(d[i]);
      assert Lowered(d)[i] in Lowered(d);
    }
  }

  lemma FieldOfLowered(body: Text, i: nat, j: nat, n: nat)
    ensures FieldIs(Lowered(body), i, j, n) <==> FieldIs(body, i, j, n)
  {
    if i <= j <= |body| {
      assert Lowered(body)[i..j] == Lowered(body[i..j]);
      RadixOfLowered(body[i..j]);
    }
  }

  /** Case does not matter. */
  lemma CaseDoesNotMatter(body: Text, g: Guid)
    ensures Denotes(Lowered(body), g) <==> Denotes(body, g)
  {
    hide FieldIs;
    forall i: nat, j: nat, n: nat
      ensures FieldIs(Lowered(body), i, j, n) <==> FieldIs(body, i, j, n)
    {
      FieldOfLowered(body, i, j, n);
    }
  }

  lemma HexOfRadix(s: Text)
    requires FromStrRadix(s).Some? && '+' !in s
    ensures Hex(FromStrRadix(s).value, |s|) == Lowered(s)
  {
    assert s == [] || s[0] in s;
    HexOfNumber(s);
  }

  lemma FieldCharacter(body: Text, i: nat, j: nat, n: nat, out: Text, k: nat)
    requires FieldIs(body, i, j, n) && j <= |out| && out[i..j] == Hex(n, j - i)
    requires '+' !in body && i <= k < j
    ensures Lower(body[k]) == out[k]
  {
    hide Hex, FromStrRadix;
    SliceAt(body, i, j, k);
    SliceAt(out, i, j, k);
    HexOfRadix(body[i..j]);
    LoweredAt(body[i..j], k - i);
  }

  lemma SliceAt(s: Text, i: nat, j: nat, k: nat)
    requires i <= k < j <= |s|
    ensures s[i..j][k - i] == s[k] && forall c <- s[i..j] :: c in s
  {
  }

  lemma LoweredAt(s: Text, k: nat)
    requires k < |s|
    ensures Lowered(s)[k] == Lower(s[k])
  {
  }

  /** Every character of a spelling is a dash or belongs to a number. */
  lemma CharacterOf(body: Text, g: Guid, k: nat)
    requires Denotes(body, g) && k < 36 && '+' !in body
    ensures |ToString(g)| == 36 && Lower(body[k]) == ToString(g)[k]
  {
    var out := ToString(g);
    PrintedFields(g);
    hide ToString, Hex, FieldIs;
    if k < 8 {
      FieldCharacter(body, 0, 8, g.data1, out, k);
    } else if 8 < k < 13 {
      FieldCharacter(body, 9, 13, g.data2, out, k);
    } else if 13 < k < 18 {
      FieldCharacter(body, 14, 18, g.data3, out, k);
    } else if 18 < k && k != 23 {
      var i := if k < 23 then (k - 19) / 2 else (k - 20) / 2;
      FieldCharacter(body, ByteAt(i), ByteAt(i) + 2, g.data4[i], out, k);
    }
  }

  lemma PrintedHasNoPlus(g: Guid)
    requires InRange(g)
    ensures |ToString(g)| == 36 && '+' !in ToString(g) && Lowered(ToString(g)) == ToString(g)
  {
    var out := ToString(g);
    PrintedFields(g);
    HexIsHex(g.data1, 8);
    HexIsHex(g.data2, 4);
    HexIsHex(g.data3, 4);
    BytesAreHex(g.data4[..2]);
    BytesAreHex(g.data4[2..]);
    assert forall c <- out :: Lower(c) == c && c != '+';
  }

  lemma {:induction false} BytesAreHex(d: seq<Byte>)
    ensures AllHex(Bytes(d)) && forall c <- Bytes(d) :: Lower(c) == c
  {
    if d != [] {
      BytesAreHex(d[1..]);
      HexIsHex(d[0], 2);
    }
  }

  /** Printing after parsing is the lower-case form of the text exactly when no number in it
      was written with a plus sign. */
  lemma PrintAfterParse(body: Text, g: Guid)
    requires Denotes(body, g)
    ensures ToString(g) == Lowered(body) <==> '+' !in body
  {
    DenotesOne(body, g, g);
    PrintedHasNoPlus(g);
    if '+' in body {
      var k :| 0 <= k < 36 && body[k] == '+';
      assert Lowered(body)[k] == '+' && Lowered(body)[k] in Lowered(body);
    } else {
      forall k | 0 <= k < 36
        ensures ToString(g)[k] == Lowered(body)[k]
      {
        CharacterOf(body, g, k);
      }
    }
  }

  // ---------------------------------------------------------------- blanks and braces

  predicate IsBlank(c: Ascii) {
    c == ' ' || 9 <= c as int <= 13
  }

  predicate Blank(s: Text) {
    forall c <- s :: IsBlank(c)
  }

  /** The blanks: tab, line feed, vertical tab, form feed, carriage return and space. */
  lemma BlanksAre(c: Ascii)
    ensures IsBlank(c) <==> c as int in {9, 10, 11, 12, 13, 32}
  {
  }

  function TrimStart(s: Text): Text {
    if s != [] && IsBlank(s[0]) then TrimStart(s[1..]) else s
  }

  function TrimEnd(s: Text): Text {
    if s != [] && IsBlank(s[|s| - 1]) then TrimEnd(s[..|s| - 1]) else s
  }

  function Trim(s: Text): Text {
    TrimEnd(TrimStart(s))
  }

  /** Both braces or neither. */
  function Strip(s: Text): Text {
    if |s| >= 2 && s[0] == '{' && s[|s| - 1] == '}' then s[1..|s| - 1] else s
  }

  lemma {:induction false} TrimStartIs(s: Text) returns (left: Text)
    ensures s == left + TrimStart(s) && Blank(left)
  {
    left := [];
    if s != [] && IsBlank(s[0]) {
      left := TrimStartIs(s[1..]);
      left := [s[0]] + left;
    }
  }

  lemma {:induction false} TrimEndIs(s: Text) returns (right: Text)
    ensures s == TrimEnd(s) + right && Blank(right)
  {
    right := [];
    if s != [] && IsBlank(s[|s| - 1]) {
      right := TrimEndIs(s[..|s| - 1]);
      right := right + [s[|s| - 1]];
    }
  }

  lemma {:induction false} TrimStartOf(left: Text, s: Text)
    requires Blank(left) && s != [] && !IsBlank(s[0])
    ensures TrimStart(left + s) == s
  {
    if left == [] {
      assert left + s == s;
    } else {
      assert left[0] in left && (left + s)[1..] == left[1..] + s;
      TrimStartOf(left[1..], s);
    }
  }

  lemma {:induction false} TrimEndOf(s: Text, right: Text)
    requires Blank(right) && s != [] && !IsBlank(s[|s| - 1])
    ensures TrimEnd(s + right) == s
  {
    if right == [] {
      assert s + right == s;
    } else {
      var n := |right| - 1;
      assert right[n] in right && (s + right)[..|s + right| - 1] == s + right[..n];
      TrimEndOf(s, right[..n]);
    }
  }

  predicate SpelledAs(s: Text, left: Text, body: Text, right: Text) {
    Blank(left) && Blank(right) && (s == left + body + right || s == left + ("{" + body + "}") + right)
  }

  /** `s` spells `g`: blanks around a body, with both braces or none. */
  ghost predicate Spells(s: Text, g: Guid) {
    exists left, body, right :: SpelledAs(s, left, body, right) && Denotes(body, g)
  }

  lemma EndsOfSpelling(body: Text, g: Guid)
    requires Denotes(body, g)
    ensures !IsBlank(body[0]) && !IsBlank(body[35]) && body[0] != '{'
  {
    RadixEnds(body[0..8]);
    assert FieldIs(body, ByteAt(7), ByteAt(7) + 2, g.data4[7]);
    RadixEnds(body[34..36]);
  }

  lemma RadixEnds(s: Text)
    requires FromStrRadix(s).Some?
    ensures s != [] && (s[0] == '+' || IsHex(s[0])) && IsHex(s[|s| - 1])
  {
    var d := Digits(s);
    assert d[0] in d && d[|d| - 1] in d;
  }

  lemma TrimmedSpells(s: Text, g: Guid)
    requires Denotes(Strip(Trim(s)), g)
    ensures Spells(s, g)
  {
    hide Denotes, TrimStart, TrimEnd, Blank;
    var left := TrimStartIs(s);
    var right := TrimEndIs(TrimStart(s));
    var body := Strip(Trim(s));
    assert Trim(s) == body || Trim(s) == "{" + body + "}";
    assert s == left + Trim(s) + right;
    assert SpelledAs(s, left, body, right);
  }

  lemma TrimOf(left: Text, core: Text, right: Text)
    requires Blank(left) && Blank(right) && core != [] && !IsBlank(core[0]) && !IsBlank(core[|core| - 1])
    ensures Trim(left + core + right) == core
  {
    assert left + core + right == left + (core + right);
    TrimStartOf(left, core + right);
    TrimEndOf(core, right);
  }

  lemma SpelledIsTrimmed(left: Text, body: Text, right: Text, g: Guid)
    requires Blank(left) && Blank(right) && Denotes(body, g)
    ensures Strip(Trim(left + body + right)) == body
    ensures Strip(Trim(left + ("{" + body + "}") + right)) == body
  {
    EndsOfSpelling(body, g);
    hide Trim, Blank, Denotes;
    var braced := "{" + body + "}";
    TrimOf(left, body, right);
    TrimOf(left, braced, right);
    assert Strip(braced) == body;
  }

  lemma SpelledDenotes(s: Text, g: Guid)
    requires Spells(s, g)
    ensures Denotes(Strip(Trim(s)), g)
  {
    hide Denotes, Trim, Strip, Blank;
    var left, body, right :| SpelledAs(s, left, body, right) && Denotes(body, g);
    SpelledIsTrimmed(left, body, right, g);
  }

  /** What trimming and stripping leave denotes exactly what the whole text spells. */
  lemma SpellingIsTrimmed(s: Text, g: Guid)
    ensures Denotes(Strip(Trim(s)), g) <==> Spells(s, g)
  {
    hide *;
    if Denotes(Strip(Trim(s)), g) {
      TrimmedSpells(s, g);
    }
    if Spells(s, g) {
      SpelledDenotes(s, g);
    }
  }

  /** Round trip, in every variant: the printed form of a GUID in either case, with or without
      braces, and with blanks around it, spells that GUID. */
  lemma VariantsSpell(g: Guid, body: Text, left: Text, right: Text)
    requires InRange(g) && Lowered(body) == ToString(g) && Blank(left) && Blank(right)
    ensures Spells(left + body + right, g) && Spells(left + ("{" + body + "}") + right, g)
  {
    hide ToString, Denotes, Blank;
    PrintedDenotes(g);
    CaseDoesNotMatter(body, g);
    assert SpelledAs(left + body + right, left, body, right);
    assert SpelledAs(left + ("{" + body + "}") + right, left, body, right);
  }

  // ---------------------------------------------------------------- parsing

  /** Cut at every dash. */
  function Split(s: Text): (r: seq<Text>)
    ensures |r| > 0
  {
    if s == [] then [[]]
    else
      var rest := Split(s[1..]);
      if s[0] == '-' then [[]] + rest else [[s[0]] + rest[0]] + rest[1..]
  }

  function Join(parts: seq<Text>): Text
    requires parts != []
  {
    if |parts| == 1 then parts[0] else parts[0] + "-" + Join(parts[1..])
  }

  lemma {:induction false} JoinOfSplit(s: Text)
    ensures Join(Split(s)) == s
  {
    if s != [] {
      var rest := Split(s[1..]);
      JoinOfSplit(s[1..]);
      if s[0] == '-' {
        assert ([[]] + rest)[1..] == rest;
      } else {
        assert ([[s[0]] + rest[0]] + rest[1..])[1..] == rest[1..];
      }
    }
  }

  lemma {:induction false} SplitFront(a: Text, rest: Text)
    requires '-' !in a
    ensures Split(a + "-" + rest) == [a] + Split(rest)
  {
    var s := a + "-" + rest;
    if a == [] {
      assert s[1..] == rest;
    } else {
      assert s[1..] == a[1..] + "-" + rest && a == [a[0]] + a[1..];
      SplitFront(a[1..], rest);
      assert s[0] != '-' && Split(s) == [[s[0]] + a[1..]] + Split(s[1..])[1..];
    }
  }

  lemma {:induction false} SplitWhole(a: Text)
    requires '-' !in a
    ensures Split(a) == [a]
  {
    if a != [] {
      SplitWhole(a[1..]);
      assert a[0] in a && a == [a[0]] + a[1..];
      assert Split(a) == [[a[0]] + a[1..]] + [a[1..]][1..];
    }
  }

  lemma JoinOfFive(p: seq<Text>)
    requires |p| == 5
    ensures Join(p) == p[0] + "-" + p[1] + "-" + p[2] + "-" + p[3] + "-" + p[4]
  {
    hide Join;
    JoinOfOne(p[4]);
    JoinFront(p[3], [p[4]]);
    JoinFront(p[2], [p[3], p[4]]);
    JoinFront(p[1], [p[2], p[3], p[4]]);
    JoinFront(p[0], [p[1], p[2], p[3], p[4]]);
    assert p == [p[0], p[1], p[2], p[3], p[4]];
    assert [p[3], p[4]] == [p[3]] + [p[4]] && [p[2], p[3], p[4]] == [p[2]] + [p[3], p[4]];
    assert [p[1], p[2], p[3], p[4]] == [p[1]] + [p[2], p[3], p[4]];
    assert p == [p[0]] + [p[1], p[2], p[3], p[4]];
    Assoc(p[2], p[3], p[4]);
    Assoc(p[1], p[2], p[3] + "-" + p[4]);
    Assoc(p[1] + "-" + p[2], p[3], p[4]);
    Assoc(p[0], p[1], p[2] + "-" + p[3] + "-" + p[4]);
    Assoc(p[0] + "-" + p[1], p[2], p[3] + "-" + p[4]);
    Assoc(p[0] + "-" + p[1] + "-" + p[2], p[3], p[4]);
  }

  lemma JoinOfOne(x: Text)
    ensures Join([x]) == x
  {
  }

  lemma JoinFront(x: Text, rest: seq<Text>)
    requires rest != []
    ensures Join([x] + rest) == x + "-" + Join(rest)
  {
    assert ([x] + rest)[1..] == rest;
  }

  lemma Assoc(a: Text, b: Text, c: Text)
    ensures a + "-" + (b + "-" + c) == a + "-" + b + "-" + c
  {
  }

  /** Five parts of the right lengths are the five fields of the text. */
  lemma FivePartsAreFields(body: Text)
    requires var p := Split(body); |p| == 5 && |p[0]| == 8 && |p[1]| == |p[2]| == |p[3]| == 4 && |p[4]| == 12
    ensures Dashed(body)
    ensures Split(body) == [body[0..8], body[9..13], body[14..18], body[19..23], body[24..]]
  {
    var p := Split(body);
    JoinOfSplit(body);
    JoinOfFive(p);
    FieldsStand(p[0], p[1], p[2], p[3], p[4], body);
  }

  lemma SpellingHasFiveParts(body: Text, g: Guid)
    requires Denotes(body, g)
    ensures Split(body) == [body[0..8], body[9..13], body[14..18], body[19..23], body[24..]]
  {
    NoDashInTail(body, g);
    hide FieldIs, Split, FromStrRadix, Denotes;
    var e, d, c, b := body[24..], body[19..23], body[14..18], body[9..13];
    SplitWhole(e);
    SplitAt(body, 19, 23);
    assert Split(body[19..]) == [d, e];
    SplitAt(body, 14, 18);
    assert Split(body[14..]) == [c, d, e];
    SplitAt(body, 9, 13);
    assert Split(body[9..]) == [b, c, d, e];
    SplitAt(body, 0, 8);
    assert body[0..] == body;
  }

  lemma SplitAt(body: Text, i: nat, k: nat)
    requires i <= k < |body| && body[k] == '-' && '-' !in body[i..k]
    ensures Split(body[i..]) == [body[i..k]] + Split(body[k + 1..])
  {
    assert body[i..] == body[i..k] + "-" + body[k + 1..];
    SplitFront(body[i..k], body[k + 1..]);
  }

  lemma NoDashInTail(body: Text, g: Guid)
    requires Denotes(body, g)
    ensures '-' !in body[0..8] && '-' !in body[9..13] && '-' !in body[14..18] && '-' !in body[19..23] && '-' !in body[24..]
  {
    NoDashInBytes(body, g);
    assert FieldIs(body, 0, 8, g.data1) && FieldIs(body, 9, 13, g.data2) && FieldIs(body, 14, 18, g.data3);
    hide Denotes, Digits, AllHex, Number;
    assert forall k :: 0 <= k < 4 ==> body[19..23][k] == body[19 + k];
    assert forall k :: 0 <= k < 12 ==> body[24..][k] == body[24 + k];
  }

  lemma NoDashInBytes(body: Text, g: Guid)
    requires Denotes(body, g)
    ensures forall k :: 19 <= k < 36 && k != 23 ==> body[k] != '-'
  {
    hide FieldIs;
    forall k | 19 <= k < 36 && k != 23
      ensures body[k] != '-'
    {
      var i := if k < 23 then (k - 19) / 2 else (k - 20) / 2;
      assert FieldIs(body, ByteAt(i), ByteAt(i) + 2, g.data4[i]);
      NoDashAt(body, ByteAt(i), g.data4[i], k);
    }
  }

  lemma NoDashAt(body: Text, p: nat, n: nat, k: nat)
    requires FieldIs(body, p, p + 2, n) && p <= k < p + 2
    ensures body[k] != '-'
  {
    hide Digits, AllHex, Number;
    var pair := body[p..p + 2];
    assert pair[k - p] == body[k];
  }

  /** Parse a GUID: the one the text spells, or none if it spells none. */
  method FromString(s: Text) returns (r: Option<Guid>)
    ensures r.Some? ==> InRange(r.value) && Spells(s, r.value)
    ensures forall g :: Spells(s, g) <==> r == Some(g)
  {
    var body := Strip(Trim(s));
    r := FromBody(body);
    forall g: Guid
      ensures Spells(s, g) <==> r == Some(g)
    {
      SpellingIsTrimmed(s, g);
      if Denotes(body, g) && r.Some? {
        DenotesOne(body, g, r.value);
      }
    }
  }

  method FromBody(body: Text) returns (r: Option<Guid>)
    ensures r.Some? ==> Denotes(body, r.value) && InRange(r.value)
    ensures r.None? ==> forall g :: !Denotes(body, g)
  {
    var p := Split(body);
    if |p| != 5 || |p[0]| != 8 || |p[1]| != 4 || |p[2]| != 4 || |p[3]| != 4 || |p[4]| != 12 {
      forall g: Guid
        ensures !Denotes(body, g)
      {
        if Denotes(body, g) {
          SpellingHasFiveParts(body, g);
        }
      }
      return None;
    }
    FivePartsAreFields(body);
    FieldsAreNumbers(body);
    hide Split, Denotes, Dashed;
    var data4 := ReadBytes(body, p[3] + p[4]);
    var data1, data2, data3 := FromStrRadix(p[0]), FromStrRadix(p[1]), FromStrRadix(p[2]);
    if data4.None? || data1.None? || data2.None? || data3.None? {
      return None;
    }
    r := Some(Guid(data1.value, data2.value, data3.value, data4.value));
    DenotesThese(body, r.value);
  }

  lemma DenotesThese(body: Text, g: Guid)
    requires Dashed(body) && FieldIs(body, 0, 8, g.data1) && FieldIs(body, 9, 13, g.data2) && FieldIs(body, 14, 18, g.data3)
    requires forall i :: 0 <= i < 8 ==> FieldIs(body, ByteAt(i), ByteAt(i) + 2, g.data4[i])
    ensures Denotes(body, g) && InRange(g)
  {
    DenotesOne(body, g, g);
  }

  lemma FieldsAreNumbers(body: Text)
    ensures forall g :: Denotes(body, g) ==>
      FromStrRadix(body[0..8]).Some? && FromStrRadix(body[9..13]).Some? && FromStrRadix(body[14..18]).Some?
    ensures forall g, i :: Denotes(body, g) && 0 <= i < 8 ==> FromStrRadix(body[ByteAt(i)..ByteAt(i) + 2]).Some?
  {
  }

  /** The eight trailing bytes, stopping at the first that is not a number. */
  method ReadBytes(ghost body: Text, tail: Text) returns (r: Option<Data4>)
    requires |body| == 36 && tail == body[19..23] + body[24..]
    ensures r.Some? ==> forall i :: 0 <= i < 8 ==> FieldIs(body, ByteAt(i), ByteAt(i) + 2, r.value[i])
    ensures r.None? ==> forall g :: !Denotes(body, g)
  {
    FieldsAreNumbers(body);
    hide Denotes, FieldIs, Digits, AllHex, Number, Pow16;
    var data4 := new Byte[8](_ => 0);
    var i := 0;
    while i < 8
      invariant 0 <= i <= 8
      invariant forall k :: 0 <= k < i ==> FieldIs(body, ByteAt(k), ByteAt(k) + 2, data4[k])
    {
      BytesStand(body, i);
      Widths();
      var b := FromStrRadix(tail[2 * i..2 * i + 2]);
      if b.None? {
        return None;
      }
      ByteIs(body, i, b.value);
      data4[i] := b.value;
      i := i + 1;
    }
    r := Some(data4[..]);
  }

  lemma ByteIs(body: Text, i: nat, n: nat)
    requires |body| == 36 && i < 8 && FromStrRadix(body[ByteAt(i)..ByteAt(i) + 2]) == Some(n)
    ensures FieldIs(body, ByteAt(i), ByteAt(i) + 2, n)
  {
  }

  // ---------------------------------------------------------------- plus signs

  lemma {:induction false} NumberFront(c: Ascii, d: Text)
    requires IsHex(c) && AllHex(d)
    ensures AllHex([c] + d) && Number([c] + d) == Value(c) * Pow16(|d|) + Number(d)
  {
    if d == [] {
      NumberSnoc([], c);
      assert [c] + d == [] + [c];
    } else {
      var n := |d| - 1;
      var d', x := d[..n], d[n];
      assert d == d' + [x] && x in d;
      assert [c] + d == ([c] + d') + [x];
      hide Number, Pow16;
      NumberFront(c, d');
      FrontGrows(c, d', x);
    }
  }

  lemma FrontGrows(c: Ascii, d: Text, x: Ascii)
    requires IsHex(c) && IsHex(x) && AllHex(d) && AllHex([c] + d) && Number([c] + d) == Value(c) * Pow16(|d|) + Number(d)
    ensures AllHex(d + [x]) && AllHex([c] + d + [x])
    ensures Number([c] + d + [x]) == Value(c) * Pow16(|d| + 1) + Number(d + [x])
  {
    assert Pow16(|d| + 1) == 16 * Pow16(|d|);
    hide Number, AllHex, Pow16;
    NumberSnoc(d, x);
    NumberSnoc([c] + d, x);
    OneDigitMore(Value(c), Pow16(|d|), Number(d), Value(x));
  }

  lemma NumberSnoc(s: Text, c: Ascii)
    requires AllHex(s) && IsHex(c)
    ensures AllHex(s + [c]) && Number(s + [c]) == 16 * Number(s) + Value(c)
  {
    assert (s + [c])[..|s|] == s;
  }

  lemma OneDigitMore(v: nat, p: nat, a: nat, x: nat)
    ensures 16 * (v * p + a) + x == v * (16 * p) + (16 * a + x)
  {
    assert v * (16 * p) == 16 * (v * p);
  }

  /** Where the eleven numbers of a spelling stand. */
  predicate IsField(i: nat, j: nat) {
    (i, j) == (0, 8) || (i, j) == (9, 13) || (i, j) == (14, 18) || exists b :: 0 <= b < 8 && i == ByteAt(b) && j == i + 2
  }

  /** A plus sign in place of the first digit leaves the value exactly if the digit is zero. */
  lemma PlusForDigit(s: Text, n: nat)
    requires |s| > 1 && FromStrRadix(s) == Some(n)
    ensures FromStrRadix(s[0 := '+']) == Some(n) <==> s[0] == '0' || s[0] == '+'
  {
    var d := s[1..];
    assert Digits(s[0 := '+']) == d;
    if s[0] == '+' {
      assert s[0 := '+'] == s;
    } else {
      assert s == [s[0]] + d && s[0] in s;
      assert forall c <- d :: c in s;
      NumberFront(s[0], d);
      PositiveProduct(Value(s[0]), Pow16(|d|));
      assert Value(s[0]) == 0 <==> s[0] == '0';
    }
  }

  lemma PositiveProduct(a: nat, b: nat)
    requires b > 0
    ensures a * b == 0 <==> a == 0
  {
  }

  lemma FieldWithPlus(body: Text, i: nat, j: nat, n: nat)
    requires i + 1 < j && FieldIs(body, i, j, n)
    ensures FieldIs(body[i := '+'], i, j, n) <==> body[i] == '0' || body[i] == '+'
  {
    assert body[i := '+'][i..j] == body[i..j][0 := '+'];
    PlusForDigit(body[i..j], n);
  }

  lemma FieldElsewhere(body: Text, i: nat, a: nat, b: nat, n: nat)
    requires i < |body| && (b <= i || i < a)
    ensures FieldIs(body[i := '+'], a, b, n) <==> FieldIs(body, a, b, n)
  {
    if a <= b <= |body| {
      assert body[i := '+'][a..b] == body[a..b];
    }
  }

  /** A plus sign is accepted in front of any of the eleven numbers: it may take the place of a
      leading zero, and of nothing else, without changing what the text denotes. So every GUID
      with a leading zero in a number has spellings that differ from its printed form in more
      than case, blanks and braces. */
  lemma PlusIsAccepted(body: Text, g: Guid, i: nat, j: nat)
    requires Denotes(body, g) && IsField(i, j)
    ensures Denotes(body[i := '+'], g) <==> body[i] == '0' || body[i] == '+'
  {
    if (i, j) == (0, 8) || (i, j) == (9, 13) || (i, j) == (14, 18) {
      PlusInNumber(body, g, i, j);
    } else {
      var k :| 0 <= k < 8 && i == ByteAt(k) && j == i + 2;
      PlusInByte(body, g, k);
    }
  }

  lemma FieldsElsewhere(body: Text, i: nat)
    requires i < |body|
    ensures forall a: nat, b: nat, n: nat :: b <= i || i < a ==> (FieldIs(body[i := '+'], a, b, n) <==> FieldIs(body, a, b, n))
  {
    forall a: nat, b: nat, n: nat | b <= i || i < a
      ensures FieldIs(body[i := '+'], a, b, n) <==> FieldIs(body, a, b, n)
    {
      FieldElsewhere(body, i, a, b, n);
    }
  }

  lemma PlusInNumber(body: Text, g: Guid, i: nat, j: nat)
    requires Denotes(body, g) && ((i, j) == (0, 8) || (i, j) == (9, 13) || (i, j) == (14, 18))
    ensures Denotes(body[i := '+'], g) <==> body[i] == '0' || body[i] == '+'
  {
    hide FieldIs;
    FieldsElsewhere(body, i);
    FieldWithPlus(body, i, j, if i == 0 then g.data1 else if i == 9 then g.data2 else g.data3);
    assert forall b :: 0 <= b < 8 ==> i < ByteAt(b);
  }

  lemma PlusInByte(body: Text, g: Guid, k: nat)
    requires Denotes(body, g) && k < 8
    ensures Denotes(body[ByteAt(k) := '+'], g) <==> body[ByteAt(k)] == '0' || body[ByteAt(k)] == '+'
  {
    hide FieldIs;
    var i := ByteAt(k);
    FieldsElsewhere(body, i);
    FieldWithPlus(body, i, i + 2, g.data4[k]);
    assert forall b :: 0 <= b < 8 && b != k ==> ByteAt(b) + 2 <= i || i < ByteAt(b);
  }
}
