/** `getKnotPixels`: the 32x32 knot bitmap, kept as text of `0` and `1`
    rows and parsed with `trim()`, `replace(/\s/g, '')`, `split('')` and
    `Uint8Array.from(... map(c => +c))`. */
module Knot {
  import opened JsString
  import opened Bytes

  /** Every one of the 32 rows of the embedded bitmap is this row. */
  const KnotRow: string := "11111111111111111111111111111111"

  function KnotRows(): seq<string>
  {
    seq(32, i => KnotRow)
  }

  /** Rows each followed by a line break, as in a template literal. */
  function Lines(rows: seq<string>): string
  {
    if rows == [] then "" else rows[0] + "\n" + Lines(rows[1..])
  }

  /** The rows run together. */
  function Concat(rows: seq<string>): string
  {
    if rows == [] then "" else rows[0] + Concat(rows[1..])
  }

  /** The template literal: a line break after the opening backtick, then
      the 32 rows, each ending its line. */
  const KnotText: string := "\n" + Lines(KnotRows())

  /** `+c` for a one-character string, stored in a `Uint8Array`: a decimal
      digit gives its value; any other character gives NaN, stored as 0. */
  function DigitValue(c: char): (v: Byte)
    ensures '0' <= c <= '9' ==> v == c as int - '0' as int
    ensures !('0' <= c <= '9') ==> v == 0
  {
    if '0' <= c <= '9' then c as int - '0' as int else 0
  }

  /** The pixel array `getKnotPixels` builds from a bitmap text. */
  function ParsePixels(text: string): (p: seq<Byte>)
    ensures |p| == |RemoveWhitespace(text)|
    ensures forall i :: 0 <= i < |p| ==> p[i] == DigitValue(RemoveWhitespace(text)[i])
  {
    var digits := RemoveWhitespace(Trim(text));
    TrimThenRemove(text);
    seq(|digits|, i requires 0 <= i < |digits| => DigitValue(digits[i]))
  }

  /** A row of the bitmap: 32 characters, each `0` or `1`. */
  predicate IsBitRow(row: string)
  {
    |row| == 32 && forall c :: 0 <= c < |row| ==> row[c] == '0' || row[c] == '1'
  }

  lemma {:induction false} LinesWithoutWhitespace(rows: seq<string>)
    requires forall r :: 0 <= r < |rows| ==> IsBitRow(rows[r])
    ensures RemoveWhitespace(Lines(rows)) == Concat(rows)
    decreases |rows|
  {
    if rows != [] {
      assert IsBitRow(rows[0]);
      assert Lines(rows) == rows[0] + ("\n" + Lines(rows[1..]));
      RemoveWhitespaceAppend(rows[0], "\n" + Lines(rows[1..]));
      RemoveNoWhitespace(rows[0]);
      RemoveWhitespaceAppend("\n", Lines(rows[1..]));
      LinesWithoutWhitespace(rows[1..]);
    }
  }

  lemma {:induction false} ConcatAt(rows: seq<string>, r: nat, c: nat)
    requires forall k :: 0 <= k < |rows| ==> |rows[k]| == 32
    requires r < |rows| && c < 32
    ensures |Concat(rows)| == 32 * |rows|
    ensures Concat(rows)[r * 32 + c] == rows[r][c]
    decreases |rows|
  {
    if r == 0 {
      ConcatLength(rows);
    } else {
      ConcatAt(rows[1..], r - 1, c);
    }
  }

  lemma {:induction false} ConcatLength(rows: seq<string>)
    requires forall k :: 0 <= k < |rows| ==> |rows[k]| == 32
    ensures |Concat(rows)| == 32 * |rows|
    decreases |rows|
  {
    if rows != [] {
      ConcatLength(rows[1..]);
    }
  }

  /** Parsing a bitmap text gives one entry per cell, row after row: cell
      (r, c) lands at index r * 32 + c, and is 1 exactly where the text
      has a `1`. */
  lemma ParseBitmap(rows: seq<string>, r: nat, c: nat)
    requires forall k :: 0 <= k < |rows| ==> IsBitRow(rows[k])
    requires r < |rows| && c < 32
    ensures IsBitRow(rows[r]) && r * 32 + c < 32 * |rows|
    ensures |ParsePixels("\n" + Lines(rows))| == 32 * |rows|
    ensures ParsePixels("\n" + Lines(rows))[r * 32 + c] == if rows[r][c] == '1' then 1 else 0
  {
    RemoveWhitespaceAppend("\n", Lines(rows));
    LinesWithoutWhitespace(rows);
    ConcatAt(rows, r, c);
  }

  lemma KnotRowAllOnes()
    ensures IsBitRow(KnotRow)
    ensures forall c :: 0 <= c < 32 ==> KnotRow[c] == '1'
  {
  }

  /** Rows of nothing but `1`s run together into nothing but `1`s. */
  lemma {:induction false} ConcatOnes(rows: seq<string>)
    requires forall k, c :: 0 <= k < |rows| && 0 <= c < |rows[k]| ==> rows[k][c] == '1'
    ensures forall i :: 0 <= i < |Concat(rows)| ==> Concat(rows)[i] == '1'
    decreases |rows|
  {
    if rows != [] {
      ConcatOnes(rows[1..]);
      var a, b := rows[0], Concat(rows[1..]);
      forall i | 0 <= i < |a + b|
        ensures (a + b)[i] == '1'
      {
        if i >= |a| {
          assert (a + b)[i] == b[i - |a|];
        }
      }
    }
  }

  /** The embedded bitmap parses to 32 x 32 = 1024 entries, every one on. */
  lemma KnotPixelsAllOn()
    ensures |ParsePixels(KnotText)| == 1024
    ensures forall i :: 0 <= i < 1024 ==> ParsePixels(KnotText)[i] == 1
  {
    var rows := KnotRows();
    KnotRowAllOnes();
    assert forall k :: 0 <= k < |rows| ==> rows[k] == KnotRow;
    RemoveWhitespaceAppend("\n", Lines(rows));
    LinesWithoutWhitespace(rows);
    ConcatLength(rows);
    ConcatOnes(rows);
    assert RemoveWhitespace(KnotText) == Concat(rows);
  }

  /** `getKnotPixels()`. */
  function GetKnotPixels(): (p: seq<Byte>)
    ensures |p| == 1024
    ensures forall i :: 0 <= i < |p| ==> p[i] == 1
  {
    KnotPixelsAllOn();
    ParsePixels(KnotText)
  }
}
