/**
 * The text hexembed writes once both files are open: a comment naming the
 * input, the size constant, the aligned array opener, one `0x%02x` entry per
 * byte with its separator, and the closing brace.
 */
module Emitter {
  import opened Format

  /** The `alignment` constant printed into the array's attribute. */
  const Alignment: nat := 4

  /** Entries per output row. */
  const RowWidth: nat := 16

  const Footer: string := "\n};\n"

  function CommentLine(path: string): string {
    "/* Embedded file: " + path + " */\n"
  }

  function SizeLine(name: string, n: nat): string {
    "const int " + name + "_size = " + Decimal(n) + ";\n"
  }

  function ArrayOpener(name: string): string {
    "__attribute__((aligned(" + Decimal(Alignment) + "))) const unsigned char " + name + "[] = {\n\t"
  }

  function Header(path: string, name: string, n: nat): string {
    CommentLine(path) + SizeLine(name, n) + ArrayOpener(name)
  }

  /** One byte as `0x%02x` writes it. */
  function Entry(b: Byte): string {
    "0x" + Hex2(b)
  }

  /** What follows entry `i` of `n`: nothing after the last, a line break after every 16th, else a comma. */
  function Sep(i: nat, n: nat): string
    requires i < n
  {
    if i == n - 1 then "" else if (i + 1) % RowWidth == 0 then ",\n\t" else ","
  }

  /** Entry `i` and its separator: what one turn of the emit loop prints. */
  function Chunk(bytes: seq<Byte>, i: nat): string
    requires i < |bytes|
  {
    Entry(bytes[i]) + Sep(i, |bytes|)
  }

  /** The loop's prints, one per byte, in order. */
  function Chunks(bytes: seq<Byte>): (cs: seq<string>)
    ensures |cs| == |bytes|
    ensures forall i :: 0 <= i < |bytes| ==> cs[i] == Chunk(bytes, i)
  {
    seq(|bytes|, i requires 0 <= i < |bytes| => Chunk(bytes, i))
  }

  /** The first `k` of `parts`, laid end to end. */
  function JoinPrefix(parts: seq<string>, k: nat): string
    requires k <= |parts|
    decreases k
  {
    if k == 0 then "" else JoinPrefix(parts, k - 1) + parts[k - 1]
  }

  /** `parts` from index `i` on, laid end to end. */
  function JoinFrom(parts: seq<string>, i: nat): string
    requires i <= |parts|
    decreases |parts| - i
  {
    if i == |parts| then "" else parts[i] + JoinFrom(parts, i + 1)
  }

  /** The array text written by the first `k` turns of the emit loop. */
  function Emitted(bytes: seq<Byte>, k: nat): string
    requires k <= |bytes|
  {
    JoinPrefix(Chunks(bytes), k)
  }

  /** The array text from entry `i` on. */
  function From(bytes: seq<Byte>, i: nat): string
    requires i <= |bytes|
  {
    JoinFrom(Chunks(bytes), i)
  }

  /** The array text between the opener and the footer. */
  function Body(bytes: seq<Byte>): string {
    Emitted(bytes, |bytes|)
  }

  lemma AppendAssoc(a: string, b: string, c: string)
    ensures (a + b) + c == a + (b + c)
  {
  }

  /** One more turn of the loop appends one more chunk. */
  lemma EmittedStep(bytes: seq<Byte>, k: nat)
    requires k < |bytes|
    ensures Emitted(bytes, k + 1) == Emitted(bytes, k) + Chunk(bytes, k)
  {
  }

  /** Entry `i` and the text after it. */
  lemma FromStep(bytes: seq<Byte>, i: nat)
    requires i < |bytes|
    ensures From(bytes, i) == Chunk(bytes, i) + From(bytes, i + 1)
    ensures From(bytes, i) == Entry(bytes[i]) + (Sep(i, |bytes|) + From(bytes, i + 1))
  {
    AppendAssoc(Entry(bytes[i]), Sep(i, |bytes|), From(bytes, i + 1));
  }

  /** Everything written to the output for an input of contents `bytes`. */
  function Document(path: string, name: string, bytes: seq<Byte>): string {
    Header(path, name, |bytes|) + Body(bytes) + Footer
  }

  /** The per-byte loop: appends entry and separator for each byte, in order, to the text written so far. */
  method EmitEntries(written: string, bytes: seq<Byte>) returns (out: string)
    ensures out == written + Body(bytes)
  {
    out := written;
    var fsize := |bytes|;
    var i := 0;
    while i < fsize
      invariant 0 <= i <= fsize
      invariant out == written + Emitted(bytes, i)
    {
      var sep := if i == fsize - 1 then "" else if (i + 1) % 16 == 0 then ",\n\t" else ",";
      var chunk := "0x" + Hex2(bytes[i]) + sep;
      assert chunk == Chunk(bytes, i);
      EmittedStep(bytes, i);
      AppendAssoc(written, Emitted(bytes, i), chunk);
      out := out + chunk;
      i := i + 1;
    }
  }

  /** The three header prints, the per-byte loop and the footer print, appending to `out`. */
  method EmitDocument(path: string, name: string, bytes: seq<Byte>) returns (out: string)
    ensures out == Document(path, name, bytes)
  {
    out := "/* Embedded file: " + path + " */\n";
    out := out + ("const int " + name + "_size = " + Decimal(|bytes|) + ";\n");
    out := out + ("__attribute__((aligned(" + Decimal(Alignment) + "))) const unsigned char " + name + "[] = {\n\t");
    assert out == Header(path, name, |bytes|);
    out := EmitEntries(out, bytes);
    out := out + "\n};\n";
  }

  /** Where entry `i` starts in the body: five characters per earlier entry, two more per earlier row break. */
  function Offset(i: nat): nat {
    5 * i + 2 * (i / RowWidth)
  }

  lemma {:induction false} EmittedLength(bytes: seq<Byte>, k: nat)
    requires k < |bytes|
    ensures |Emitted(bytes, k)| == Offset(k)
    decreases k
  {
    if k > 0 {
      EmittedLength(bytes, k - 1);
      EmittedStep(bytes, k - 1);
      if k % 16 == 0 {
        assert (k - 1) / 16 == k / 16 - 1;
      } else {
        assert (k - 1) / 16 == k / 16;
      }
    }
  }

  /**
   * The body costs five characters per entry (four for the entry, one for
   * the comma), minus the missing final comma, plus two for each row break.
   */
  lemma BodyLength(bytes: seq<Byte>)
    ensures |Body(bytes)| == if |bytes| == 0 then 0 else 5 * |bytes| - 1 + 2 * ((|bytes| - 1) / RowWidth)
    ensures |bytes| > 0 ==> |Body(bytes)| == Offset(|bytes| - 1) + 4
  {
    if |bytes| > 0 {
      EmittedLength(bytes, |bytes| - 1);
    }
  }

  lemma {:induction false} JoinPrefixGrows(parts: seq<string>, k: nat, m: nat)
    requires k <= m <= |parts|
    ensures JoinPrefix(parts, k) <= JoinPrefix(parts, m)
    decreases m - k
  {
    if k < m {
      JoinPrefixGrows(parts, k, m - 1);
    }
  }

  lemma EmittedPrefix(bytes: seq<Byte>, k: nat, m: nat)
    requires k <= m <= |bytes|
    ensures Emitted(bytes, k) <= Emitted(bytes, m)
  {
    JoinPrefixGrows(Chunks(bytes), k, m);
  }

  /** Entry `i` stands at `Offset(i)` in the body, spelling `bytes[i]`, followed by its separator. */
  lemma EntryAt(bytes: seq<Byte>, i: nat)
    requires i < |bytes|
    ensures Offset(i) + 4 + |Sep(i, |bytes|)| <= |Body(bytes)|
    ensures Body(bytes)[Offset(i)..Offset(i) + 4] == "0x" + Hex2(bytes[i])
    ensures Body(bytes)[Offset(i) + 4..Offset(i) + 4 + |Sep(i, |bytes|)|] == Sep(i, |bytes|)
  {
    EmittedLength(bytes, i);
    EmittedPrefix(bytes, i + 1, |bytes|);
    EmittedStep(bytes, i);
    SliceOfPrefix(Body(bytes), Emitted(bytes, i), Entry(bytes[i]), Sep(i, |bytes|));
  }

  /** Where two pieces stand in a text that starts with them after `pre`. */
  lemma SliceOfPrefix(whole: string, pre: string, a: string, b: string)
    requires pre + (a + b) <= whole
    ensures |pre| + |a| + |b| <= |whole|
    ensures whole[|pre|..|pre| + |a|] == a
    ensures whole[|pre| + |a|..|pre| + |a| + |b|] == b
  {
    var p := pre + (a + b);
    assert whole[|pre|..|pre| + |a|] == p[|pre|..|pre| + |a|];
    assert whole[|pre| + |a|..|pre| + |a| + |b|] == p[|pre| + |a|..|pre| + |a| + |b|];
  }

  /**
   * After every entry but the last comes a comma; the line breaks exactly
   * after every 16th entry, and otherwise the next entry follows at once.
   */
  lemma WrapAt(bytes: seq<Byte>, i: nat)
    requires i + 1 < |bytes|
    ensures Offset(i) + 5 < |Body(bytes)|
    ensures Body(bytes)[Offset(i) + 4] == ','
    ensures Body(bytes)[Offset(i) + 5] == '\n' <==> (i + 1) % RowWidth == 0
  {
    EntryAt(bytes, i);
    EntryAt(bytes, i + 1);
    var body, o, sep := Body(bytes), Offset(i), Sep(i, |bytes|);
    if (i + 1) % 16 == 0 {
      assert sep == ",\n\t";
      assert body[o + 4..o + 7] == sep;
      assert body[o + 5] == sep[1];
    } else {
      assert sep == ",";
      assert (i + 1) / 16 == i / 16;
      assert Offset(i + 1) == o + 5;
      assert body[o + 4..o + 5] == sep;
      assert body[o + 5] == ("0x" + Hex2(bytes[i + 1]))[0];
    }
  }

  /** The body never ends in a separator: a non-empty array ends with the last byte's second digit. */
  lemma NoTrailingComma(bytes: seq<Byte>)
    requires |bytes| > 0
    ensures Body(bytes)[|Body(bytes)| - 1] == Hex2(bytes[|bytes| - 1])[1]
  {
    EmittedStep(bytes, |bytes| - 1);
  }

  lemma {:induction false} JoinSplit(parts: seq<string>, k: nat)
    requires k <= |parts|
    ensures JoinPrefix(parts, k) + JoinFrom(parts, k) == JoinPrefix(parts, |parts|)
    decreases |parts| - k
  {
    if k < |parts| {
      JoinSplit(parts, k + 1);
      AppendAssoc(JoinPrefix(parts, k), parts[k], JoinFrom(parts, k + 1));
    }
  }

  lemma EmittedThenFrom(bytes: seq<Byte>, k: nat)
    requires k <= |bytes|
    ensures Emitted(bytes, k) + From(bytes, k) == Body(bytes)
  {
    JoinSplit(Chunks(bytes), k);
  }

  /** Entries joined by commas, all on one line. */
  function Row(xs: seq<Byte>): string
    requires |xs| > 0
    decreases |xs|
  {
    if |xs| == 1 then Entry(xs[0]) else Entry(xs[0]) + "," + Row(xs[1..])
  }

  /** Rows of 16 entries (the last one possibly shorter), each joined to the next by `,\n\t`. */
  function Rows(xs: seq<Byte>): string
    decreases |xs|
  {
    if |xs| == 0 then ""
    else if |xs| <= RowWidth then Row(xs)
    else Row(xs[..RowWidth]) + ",\n\t" + Rows(xs[RowWidth..])
  }

  lemma {:induction false} RowSingleLine(xs: seq<Byte>)
    requires |xs| > 0
    ensures forall c :: c in Row(xs) ==> c != '\n' && c != '\t'
    decreases |xs|
  {
    var h := Hex2(xs[0]);
    assert Entry(xs[0]) == ['0', 'x', h[0], h[1]];
    if |xs| > 1 {
      RowSingleLine(xs[1..]);
    }
  }

  /** From entry `j` the text runs to the end of `j`'s row, then breaks the line if bytes remain. */
  lemma {:induction false} FromRow(bytes: seq<Byte>, j: nat, e: nat)
    requires j < e && e == if RowWidth * (j / RowWidth + 1) < |bytes| then RowWidth * (j / RowWidth + 1) else |bytes|
    ensures From(bytes, j) == Row(bytes[j..e]) + (if e < |bytes| then ",\n\t" + From(bytes, e) else "")
    decreases e - j
  {
    var n := |bytes|;
    var entry := Entry(bytes[j]);
    FromStep(bytes, j);
    if j + 1 == e {
      assert bytes[j..e] == [bytes[j]];
      if e < n {
        assert (j + 1) % 16 == 0;
        AppendAssoc(entry, ",\n\t", From(bytes, e));
      }
    } else {
      assert (j + 1) / 16 == j / 16 && (j + 1) % 16 != 0;
      FromRow(bytes, j + 1, e);
      assert bytes[j..e][1..] == bytes[j + 1..e];
      var rest := Row(bytes[j + 1..e]);
      var tail := if e < n then ",\n\t" + From(bytes, e) else "";
      AppendAssoc(entry + ",", rest, tail);
    }
  }

  lemma {:induction false} FromRows(bytes: seq<Byte>, i: nat)
    requires i <= |bytes| && i % RowWidth == 0
    ensures From(bytes, i) == Rows(bytes[i..])
    decreases |bytes| - i
  {
    var n := |bytes|;
    if i < n {
      var e := if i + 16 < n then i + 16 else n;
      assert i / 16 * 16 == i;
      FromRow(bytes, i, e);
      if n - i <= 16 {
        assert bytes[i..e] == bytes[i..];
      } else {
        FromRows(bytes, i + 16);
        assert bytes[i..][..16] == bytes[i..e];
        assert bytes[i..][16..] == bytes[i + 16..];
      }
    }
  }

  /**
   * The body is the input cut into rows of 16 entries: entries of one row
   * share a line, and consecutive rows are joined by a comma, a newline and a tab.
   */
  lemma BodyIsRows(bytes: seq<Byte>)
    ensures Body(bytes) == Rows(bytes)
  {
    EmittedThenFrom(bytes, 0);
    FromRows(bytes, 0);
    assert bytes[0..] == bytes;
  }

  /** An empty input still gets the opener's tab and the footer: the array is `{\n\t\n};\n`. */
  lemma EmptyInput(path: string, name: string)
    ensures Body([]) == ""
    ensures SizeLine(name, 0) == "const int " + name + "_size = 0;\n"
    ensures Document(path, name, []) == Header(path, name, 0) + "\n};\n"
    ensures Decimal(Alignment) == "4"
    ensures ArrayOpener(name) ==
      "__attribute__((aligned(" + "4" + "))) const unsigned char " + name + "[] = {\n\t"
  {
  }

  /** Two bytes in: one row, one comma, size 2. */
  lemma TwoByteExample(path: string, name: string)
    ensures Body([0x41, 0x42]) == "0x41,0x42"
    ensures SizeLine(name, 2) == "const int " + name + "_size = 2;\n"
    ensures Document(path, name, [0x41, 0x42]) == Header(path, name, 2) + "0x41,0x42" + "\n};\n"
  {
    var bytes: seq<Byte> := [0x41, 0x42];
    assert Hex2(0x41) == "41" && Hex2(0x42) == "42";
    assert Chunk(bytes, 0) == "0x41," && Chunk(bytes, 1) == "0x42";
    assert Emitted(bytes, 1) == "0x41,";
  }
}
