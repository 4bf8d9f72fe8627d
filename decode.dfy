/**
 * Reading the generated array back: a reader of the layout the emitter
 * writes between `{\n\t` and `\n};\n`. It is the inverse of the
 * emitter's body, and the round trip is proved for every input.
 */
module Decode {
  import opened Wrappers
  import opened Format
  import opened Emitter

  /**
   * A non-empty run of entries: `0x` and two lower-case digits, then either
   * the end of the text or a comma, optionally followed by a newline and a tab.
   */
  function DecodeEntries(s: string): Option<seq<Byte>>
    decreases |s|
  {
    if |s| < 4 || s[0] != '0' || s[1] != 'x' || !IsLowerHex(s[2]) || !IsLowerHex(s[3]) then None
    else
      var b: Byte := HexValue(s[2]) * 16 + HexValue(s[3]);
      if |s| == 4 then Some([b])
      else if s[4] != ',' then None
      else
        var rest := if |s| >= 7 && s[5] == '\n' && s[6] == '\t' then s[7..] else s[5..];
        match DecodeEntries(rest)
        case None => None
        case Some(bs) => Some([b] + bs)
  }

  /** The bytes an array body denotes; the empty body is the empty array. */
  function DecodeBody(s: string): Option<seq<Byte>> {
    if s == [] then Some([]) else DecodeEntries(s)
  }

  /** The four characters an entry starts with spell its byte. */
  lemma EntryThen(b: Byte, t: string)
    ensures var s := Entry(b) + t;
      |s| == 4 + |t| && s[0] == '0' && s[1] == 'x' && IsLowerHex(s[2]) && IsLowerHex(s[3]) &&
      HexValue(s[2]) * 16 + HexValue(s[3]) == b && s[4..] == t
  {
    var h := Hex2(b);
    assert Entry(b) + t == ['0', 'x', h[0], h[1]] + t;
  }

  /** A last entry decodes to its byte. */
  lemma DecodeLastEntry(b: Byte)
    ensures DecodeEntries(Entry(b)) == Some([b])
  {
    EntryThen(b, "");
    assert Entry(b) + "" == Entry(b);
  }

  /** An entry followed by a separator and more entries decodes to its byte, then the rest. */
  lemma DecodeNextEntry(b: Byte, sep: string, tail: string)
    requires sep == "," || sep == ",\n\t"
    requires |tail| > 0 && tail[0] == '0'
    ensures DecodeEntries(tail).Some? ==>
      DecodeEntries(Entry(b) + (sep + tail)) == Some([b] + DecodeEntries(tail).value)
  {
    EntryThen(b, sep + tail);
    var s := Entry(b) + (sep + tail);
    var rest := if |s| >= 7 && s[5] == '\n' && s[6] == '\t' then s[7..] else s[5..];
    assert s[4] == ',' && rest == tail by {
      if sep == "," {
        assert s[4..] == [','] + tail;
        assert s[5..] == tail;
      } else {
        assert s[4..] == [',', '\n', '\t'] + tail;
        assert s[7..] == tail;
      }
    }
  }

  lemma {:induction false} DecodeFrom(bytes: seq<Byte>, i: nat)
    requires i < |bytes|
    ensures DecodeEntries(From(bytes, i)) == Some(bytes[i..])
    decreases |bytes| - i
  {
    var n := |bytes|;
    FromStep(bytes, i);
    if i == n - 1 {
      assert From(bytes, i) == Entry(bytes[i]);
      DecodeLastEntry(bytes[i]);
      assert bytes[i..] == [bytes[i]];
    } else {
      DecodeFrom(bytes, i + 1);
      var tail := From(bytes, i + 1);
      FromStep(bytes, i + 1);
      EntryThen(bytes[i + 1], Sep(i + 1, n) + From(bytes, i + 2));
      DecodeNextEntry(bytes[i], Sep(i, n), tail);
      assert bytes[i..] == [bytes[i]] + bytes[i + 1..];
    }
  }

  /** Decoding the emitted entries gives back exactly the input, in order. */
  lemma DecodeBodyRoundTrip(bytes: seq<Byte>)
    ensures DecodeBody(Body(bytes)) == Some(bytes)
  {
    EmittedThenFrom(bytes, 0);
    assert Body(bytes) == From(bytes, 0);
    if |bytes| > 0 {
      DecodeFrom(bytes, 0);
      assert bytes[0..] == bytes;
      BodyLength(bytes);
      assert Body(bytes) != [];
    }
  }

  /** The size the header declares is the number of entries the array holds. */
  lemma DeclaredSizeMatchesEntries(path: string, name: string, bytes: seq<Byte>)
    ensures Document(path, name, bytes) ==
      CommentLine(path) + ("const int " + name + "_size = " + Decimal(|bytes|) + ";\n") +
      ArrayOpener(name) + Body(bytes) + "\n};\n"
    ensures ParseDecimal(Decimal(|bytes|)) == Some(|bytes|)
    ensures DecodeBody(Body(bytes)).Some? && |DecodeBody(Body(bytes)).value| == |bytes|
  {
    DecimalRoundTrip(|bytes|);
    DecodeBodyRoundTrip(bytes);
  }
}
