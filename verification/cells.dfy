/** Decoding of single spreadsheet cells: the text a cell stands for, and the
    zero-based column its reference ("B7") names. */
module Cells {
  import opened Wrappers
  import opened Text

  /** The `CellValues` data types a cell may declare. */
  datatype CellKind = Boolean | Number | Error | SharedString | Str | InlineString | Date

  /** One stored cell: its optional reference ("B7"), its optional declared data
      type and the text of its optional `CellValue` child. */
  datatype Cell = Cell(reference: Option<string>, kind: Option<CellKind>, content: Option<string>)

  /** Cells whose text is treated as a number: untyped ones and `Number` ones. */
  predicate IsNumberCell(cell: Cell) {
    cell.kind.None? || cell.kind == Some(Number)
  }

  /** Whether a cell resolves through the shared-string table. An empty table
      disables the lookup and the raw index text is kept. */
  predicate UsesSharedStrings(cell: Cell, cache: seq<string>) {
    cell.kind == Some(SharedString) && |cache| > 0
  }

  /** The shared-string entry a cell's text designates, if the text parses as an
      in-range index. */
  function SharedEntry(text: string, cache: seq<string>): Option<string> {
    match ParseInt32(text)
    case Some(i) => if 0 <= i < |cache| then Some(cache[i]) else None
    case None => None
  }

  /** `GetCellValue`: the canonical text of a cell. */
  function CellValue(cell: Cell, cache: seq<string>, culture: Culture): (r: string)
    ensures cell.content.None? ==> r == []
    ensures cell.content.Some? && UsesSharedStrings(cell, cache) ==>
      r == SharedEntry(cell.content.value, cache).GetOr([])
    ensures cell.content.Some? && UsesSharedStrings(cell, cache) ==> r == [] || r in cache
    ensures cell.content.Some? && !UsesSharedStrings(cell, cache) && IsNumberCell(cell) ==>
      if EndsWith(cell.content.value, ".0") then r + ".0" == cell.content.value
      else r == culture.invariantDecimal(cell.content.value).GetOr(cell.content.value)
    ensures cell.content.Some? && !UsesSharedStrings(cell, cache) && !IsNumberCell(cell) ==>
      r == cell.content.value
  {
    match cell.content
    case None => ""
    case Some(raw) =>
      if UsesSharedStrings(cell, cache) then
        SharedEntry(raw, cache).GetOr("")
      else if IsNumberCell(cell) then
        if EndsWith(raw, ".0") then raw[..|raw| - 2]
        else culture.invariantDecimal(raw).GetOr(raw)
      else
        raw
  }

  /** A shared-string cell that stores the decimal index `i` decodes to entry `i`. */
  lemma SharedStringResolves(cache: seq<string>, i: nat, reference: Option<string>, culture: Culture)
    requires i < |cache| && i <= Int32Max
    ensures CellValue(Cell(reference, Some(SharedString), Some(NatToString(i))), cache, culture) == cache[i]
  {
    ParseRenderedNat(i);
  }

  /** A number cell whose text ends in ".0" loses exactly those two characters. */
  lemma TrailingZeroRemoved(digits: string, reference: Option<string>, kind: Option<CellKind>, culture: Culture)
    requires kind.None? || kind == Some(Number)
    ensures CellValue(Cell(reference, kind, Some(digits + ".0")), [], culture) == digits
  {
    var raw := digits + ".0";
    assert raw[|raw| - 2..] == ".0";
    assert raw[..|raw| - 2] == digits;
  }

  // ---- Column references -------------------------------------------------

  predicate IsAsciiLetter(c: char) {
    'A' <= c <= 'Z' || 'a' <= c <= 'z'
  }

  predicate IsUpperLetters(s: string) {
    forall i :: 0 <= i < |s| ==> 'A' <= s[i] <= 'Z'
  }

  predicate NoLetters(s: string) {
    forall i :: 0 <= i < |s| ==> !IsAsciiLetter(s[i])
  }

  /** Where the first letter of `s` is, or `|s|` when it has none. */
  function LetterRunStart(s: string): (a: nat)
    ensures a <= |s|
    ensures NoLetters(s[..a])
    ensures a < |s| ==> IsAsciiLetter(s[a])
  {
    if |s| == 0 || IsAsciiLetter(s[0]) then 0
    else
      var a := 1 + LetterRunStart(s[1..]);
      assert s[..a] == [s[0]] + s[1..][..a - 1];
      a
  }

  /** The longest prefix of `s` made of letters. */
  function LetterPrefix(s: string): (r: string)
    ensures |r| <= |s| && r == s[..|r|]
    ensures forall i :: 0 <= i < |r| ==> IsAsciiLetter(r[i])
    ensures |r| < |s| ==> !IsAsciiLetter(s[|r|])
  {
    if |s| > 0 && IsAsciiLetter(s[0]) then [s[0]] + LetterPrefix(s[1..]) else []
  }

  /** `Regex.Match(s, "[A-Za-z]+").Value`: the leftmost maximal run of ASCII
      letters, or the empty string when `s` contains none. */
  function LetterRun(s: string): (r: string)
    ensures LetterRunStart(s) + |r| <= |s|
    ensures r == s[LetterRunStart(s)..LetterRunStart(s) + |r|]
    ensures forall i :: 0 <= i < |r| ==> IsAsciiLetter(r[i])
    ensures LetterRunStart(s) + |r| < |s| ==> !IsAsciiLetter(s[LetterRunStart(s) + |r|])
    ensures r == [] <==> NoLetters(s)
  {
    var a := LetterRunStart(s);
    var r := LetterPrefix(s[a..]);
    assert r == [] ==> NoLetters(s) by {
      if r == [] {
        assert s == s[..a] + s[a..];
      }
    }
    r
  }

  /** Two's-complement wrap-around of C#'s unchecked 32-bit `int` arithmetic. */
  function Wrap32(x: int): (r: int)
    ensures Int32Min <= r <= Int32Max
    ensures (x - r) % 0x1_0000_0000 == 0
    ensures Int32Min <= x <= Int32Max ==> r == x
  {
    var m := x % 0x1_0000_0000;
    if m > Int32Max then m - 0x1_0000_0000 else m
  }

  /** The loop `index = index * 26 + (c - 'A' + 1)` over the letters, in 32-bit
      arithmetic. */
  function LetterAccumulate(s: string): int {
    if |s| == 0 then 0
    else Wrap32(LetterAccumulate(s[..|s| - 1]) * 26 + (s[|s| - 1] as int - 'A' as int + 1))
  }

  /** Bijective base-26 with digits A = 1 .. Z = 26, as unbounded arithmetic. */
  function BijectiveValue(s: string): nat
    requires IsUpperLetters(s)
  {
    if |s| == 0 then 0
    else BijectiveValue(s[..|s| - 1]) * 26 + (s[|s| - 1] as int - 'A' as int + 1)
  }

  /** The letters naming zero-based column `n`: A, ..., Z, AA, AB, ... */
  function ColumnLetters(n: nat): (s: string)
    ensures |s| > 0 && IsUpperLetters(s)
  {
    if n < 26 then [('A' as int + n) as char]
    else ColumnLetters(n / 26 - 1) + [('A' as int + n % 26) as char]
  }

  /** On upper-case letters whose value fits in an `int`, the 32-bit loop never
      wraps and computes the bijective base-26 value. */
  lemma {:induction false} AccumulateExact(s: string)
    ensures IsUpperLetters(s) && BijectiveValue(s) <= Int32Max ==> LetterAccumulate(s) == BijectiveValue(s)
  {
    if |s| > 0 && IsUpperLetters(s) && BijectiveValue(s) <= Int32Max {
      var p := s[..|s| - 1];
      assert IsUpperLetters(p);
      assert BijectiveValue(p) <= BijectiveValue(s);
      AccumulateExact(p);
    }
  }

  /** `GetColumnIndexFromReference`: a null or empty reference gives 0; otherwise
      the first run of letters is decoded and 1 is subtracted, so a reference
      without letters gives -1 and an upper-case run gives its bijective base-26
      value minus one. */
  function ColumnIndex(reference: Option<string>): (r: int)
    ensures reference.None? || reference == Some([]) ==> r == 0
    ensures reference.Some? && |reference.value| > 0 && NoLetters(reference.value) ==> r == -1
    ensures reference.Some? && |reference.value| > 0 && IsUpperLetters(LetterRun(reference.value))
            && BijectiveValue(LetterRun(reference.value)) <= Int32Max ==>
              r == BijectiveValue(LetterRun(reference.value)) - 1
  {
    match reference
    case None => 0
    case Some(text) =>
      if |text| == 0 then 0
      else
        var run := LetterRun(text);
        AccumulateExact(run);
        Wrap32(LetterAccumulate(run) - 1)
  }

  /** Column letters decode to the column they name (A -> 0, Z -> 25, AA -> 26). */
  lemma {:induction false} LettersValue(n: nat)
    ensures BijectiveValue(ColumnLetters(n)) == n + 1
  {
    var s := ColumnLetters(n);
    if n < 26 {
      assert s[..|s| - 1] == [];
    } else {
      var m := n / 26 - 1;
      assert s[..|s| - 1] == ColumnLetters(m);
      LettersValue(m);
    }
  }

  /** Every non-empty upper-case run is the name of the column it decodes to, so
      `ColumnLetters` and decoding are mutually inverse. */
  lemma {:induction false} LettersOfValue(s: string)
    requires |s| > 0 && IsUpperLetters(s)
    ensures BijectiveValue(s) >= 1
    ensures ColumnLetters(BijectiveValue(s) - 1) == s
  {
    var p := s[..|s| - 1];
    var d := s[|s| - 1] as int - 'A' as int + 1;
    assert IsUpperLetters(p);
    var n := BijectiveValue(s) - 1;
    if |p| == 0 {
      assert s == [s[0]];
    } else {
      LettersOfValue(p);
      assert n == (BijectiveValue(p) - 1 + 1) * 26 + (d - 1);
      assert n / 26 == BijectiveValue(p) && n % 26 == d - 1;
      assert s == p + [s[|s| - 1]];
    }
  }

  lemma {:induction false} LetterPrefixOfConcat(letters: string, rest: string)
    requires forall i :: 0 <= i < |letters| ==> IsAsciiLetter(letters[i])
    requires |rest| == 0 || !IsAsciiLetter(rest[0])
    ensures LetterPrefix(letters + rest) == letters
  {
    if |letters| > 0 {
      assert (letters + rest)[1..] == letters[1..] + rest;
      LetterPrefixOfConcat(letters[1..], rest);
    }
  }

  /** A reference made of a column's letters followed by a row number (or any
      letter-free text) decodes to that column. */
  lemma ReferenceDecodes(n: nat, row: string)
    requires n < Int32Max
    requires NoLetters(row)
    ensures ColumnIndex(Some(ColumnLetters(n) + row)) == n
  {
    var letters := ColumnLetters(n);
    var text := letters + row;
    assert IsAsciiLetter(text[0]);
    assert LetterRunStart(text) == 0;
    assert text[0..] == text;
    assert |row| == 0 || !IsAsciiLetter(row[0]);
    LetterPrefixOfConcat(letters, row);
    assert LetterRun(text) == letters;
    LettersValue(n);
  }

  /** Lower-case letters are decoded as if they were upper case shifted by 32:
      'a' - 'A' + 1 == 33. */
  lemma LowerCaseMisdecoded()
    ensures ColumnIndex(Some("a1")) == 32
  {
    assert LetterRun("a1") == "a" by {
      assert LetterRunStart("a1") == 0;
      assert "a1"[0..] == "a1";
      LetterPrefixOfConcat("a", "1");
    }
    assert "a"[..0] == [];
  }

  /** The same reference in upper case decodes to the first column. */
  lemma UpperCaseFirstColumn()
    ensures ColumnIndex(Some("A1")) == 0
  {
    assert LetterRun("A1") == "A" by {
      assert LetterRunStart("A1") == 0;
      assert "A1"[0..] == "A1";
      LetterPrefixOfConcat("A", "1");
    }
    assert "A"[..0] == [];
  }
}
