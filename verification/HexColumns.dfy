/** The text form of a frame: `hcidump -R` prints hexadecimal columns in several lines, which
    src/ParserLogic.cpp trims and joins. */
module HexColumns {
  import opened CArith
  import opened Advertising
  import opened TextDecoder

  /** Octets as upper-case columns, one space between neighbours. */
  function Columns(os: Octets): (s: string)
    ensures |s| == if os == [] then 0 else 3 * |os| - 1
  {
    if os == [] then ""
    else if |os| == 1 then HexPair(os[0])
    else HexPair(os[0]) + " " + Columns(os[1..])
  }

  /** The packet text of a frame. */
  function PacketText(os: Octets): string {
    "> " + Columns(os)
  }

  lemma {:induction false} ColumnsConcat(a: Octets, b: Octets)
    requires a != [] && b != []
    ensures Columns(a + b) == Columns(a) + " " + Columns(b)
  {
    assert (a + b)[1..] == a[1..] + b;
    if |a| == 1 {
      assert a[1..] + b == b;
    } else {
      ColumnsConcat(a[1..], b);
      assert HexPair(a[0]) + " " + (Columns(a[1..]) + " " + Columns(b))
          == (HexPair(a[0]) + " " + Columns(a[1..])) + " " + Columns(b);
    }
  }

  lemma {:induction false} ColumnsAt(os: Octets, i: nat)
    requires i < |os|
    ensures Columns(os)[3 * i..3 * i + 2] == HexPair(os[i])
    ensures i < |os| - 1 ==> Columns(os)[3 * i + 2] == ' '
  {
    if i > 0 {
      var rest := Columns(os[1..]);
      ColumnsAt(os[1..], i - 1);
      assert Columns(os) == (HexPair(os[0]) + " ") + rest;
      assert Columns(os)[3 * i..3 * i + 2] == rest[3 * (i - 1)..3 * (i - 1) + 2];
      if i < |os| - 1 {
        assert Columns(os)[3 * i + 2] == rest[3 * (i - 1) + 2];
      }
    }
  }

  /** A column shows the octet it was printed from. */
  lemma PairValue(o: uint8)
    ensures MyStoi(HexPair(o)) == o
  {
    var h, l := ToHexChar(o / 16), ToHexChar(o % 16);
    DigitValue(o / 16);
    DigitValue(o % 16);
    assert HexPair(o)[1..] == [l] && [l][1..] == "";
    assert HexPrefix([l], o / 16) == 16 * (o / 16) + o % 16;
  }

  function LowerCase(c: char): char {
    if 'A' <= c <= 'F' then c + ('a' - 'A') else c
  }

  /** In small letters a column reads the same. */
  lemma LowerCaseValue(o: uint8)
    ensures MyStoi([LowerCase(HexPair(o)[0]), LowerCase(HexPair(o)[1])]) == o
  {
    hide HexPrefix;
    var h, l := LowerCase(ToHexChar(o / 16)), LowerCase(ToHexChar(o % 16));
    DigitsValue(h, l, o / 16, o % 16);
  }

  lemma DigitsValue(h: char, l: char, a: int, b: int)
    requires 0 <= a < 16 && 0 <= b < 16 && HexDigit(h) == a && HexDigit(l) == b && !IsSpace(h) && h != '-' && h != '+'
    ensures MyStoi([h, l]) == 16 * a + b
  {
    assert [h, l][1..] == [l] && [l][1..] == "";
    assert HexPrefix([l], a) == 16 * a + b;
  }

  /** Before a single digit a plus sign and any white space are passed over, and a minus sign negates; any other
      character hides the digit. */
  lemma SignsAndSpaces(c: char, b: int)
    requires 0 <= b < 16
    ensures var digit := ToHexChar(b);
      MyStoi([c, digit]) ==
        if c == '+' || c == ' ' || c == '\t' || c == '\n' || c == '\U{000B}' || c == '\U{000C}' || c == '\r' then b
        else if c == '-' then -b
        else if HexDigit(c) >= 0 then 16 * HexDigit(c) + b
        else 0
  {
    var digit := ToHexChar(b);
    DigitValue(b);
    assert [c, digit][1..] == [digit] && [digit][1..] == "";
    assert HexPrefix([digit], 0) == b;
    if HexDigit(c) >= 0 { assert HexPrefix([digit], HexDigit(c)) == 16 * HexDigit(c) + b; }
  }

  lemma DigitValue(b: int)
    requires 0 <= b < 16
    ensures HexDigit(ToHexChar(b)) == b && !IsSpace(ToHexChar(b)) && ToHexChar(b) != '+'
  {
  }

  lemma {:induction false} ColumnsNoMinus(os: Octets)
    ensures NoMinus(Columns(os))
  {
    if |os| > 1 { ColumnsNoMinus(os[1..]); }
  }

  lemma PacketNoMinus(os: Octets)
    ensures NoMinus(PacketText(os))
  {
    ColumnsNoMinus(os);
  }

  lemma PacketAt(os: Octets, i: nat)
    requires i < |os|
    ensures |PacketText(os)| == 3 * |os| + 1
    ensures At(PacketText(os), 3 * i + 2) == os[i]
  {
    ColumnsAt(os, i);
    PairValue(os[i]);
    assert PacketText(os)[3 * i + 2..3 * i + 4] == Columns(os)[3 * i..3 * i + 2];
  }

  /** The text of sixteen columns without its spaces is the uuid string of the byte decoder. */
  lemma {:induction false} ColumnsDigits(os: Octets)
    ensures DropSpaces(Columns(os)) == HexString(os)
    ensures DropSpaces(Columns(os) + " ") == HexString(os)
  {
    DropSpacesConcat(Columns(os), " ");
    assert DropSpaces(" ") == "" by { assert " "[1..] == ""; }
    if os != [] {
      var pair := HexPair(os[0]);
      assert DropSpaces(pair) == pair by {
        assert pair[1..] == [pair[1]] && [pair[1]][1..] == "";
      }
      if |os| == 1 {
        assert HexString(os[1..]) == "";
        assert pair + "" == pair;
      } else {
        ColumnsDigits(os[1..]);
        DropSpacesConcat(pair, " ");
        DropSpacesConcat(pair + " ", Columns(os[1..]));
      }
    }
  }

  /** A slice of whole columns. */
  lemma {:induction false} ColumnsSlice(os: Octets, i: nat, n: nat)
    requires 0 < n && i + n < |os|
    ensures Columns(os)[3 * i..3 * (i + n)] == Columns(os[i..i + n]) + " "
  {
    var a, b, c := os[..i], os[i..i + n], os[i + n..];
    assert os == a + (b + c);
    ColumnsConcat(b, c);
    if i == 0 {
      assert os == b + c;
    } else {
      ColumnsConcat(a, b + c);
    }
  }
}
