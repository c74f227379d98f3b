/** Spreadsheet column labels: `columnToLetter` and `letterToColumn` of
    modules/sheetHelper.js. A label is a bijective base-26 numeral whose
    digits are 'A' = 1 ... 'Z' = 26, most significant first, with no zero
    digit: 1 is "A", 26 is "Z", 27 is "AA". */
module ColumnCodec {

  /** `letter.charCodeAt(i) - 64`: 'A' is 1 and 'Z' is 26. */
  function DigitValue(c: char): int {
    c as int - 64
  }

  predicate IsLabelChar(c: char) {
    'A' <= c <= 'Z'
  }

  /** Every character is an upper-case letter (the empty string included). */
  predicate IsLabel(s: string) {
    forall i :: 0 <= i < |s| ==> IsLabelChar(s[i])
  }

  /** The letter of a digit value 1..26. */
  function Letter(d: int): (c: char)
    requires 1 <= d <= 26
    ensures IsLabelChar(c) && DigitValue(c) == d
  {
    (d + 64) as char
  }

  /** The label of a column: the last letter carries `(n - 1) % 26 + 1` and
      the letters before it are the label of `(n - 1) / 26`; a column of 0 or
      less has the empty label. */
  function Encode(n: int): (s: string)
    ensures IsLabel(s)
    ensures s != [] <==> n >= 1
    decreases n
  {
    if n <= 0 then ""
    else Encode((n - 1) / 26) + [Letter((n - 1) % 26 + 1)]
  }

  /** The column of a label, read most-significant letter first. */
  function Decode(s: string): int {
    if s == [] then 0
    else Decode(s[..|s| - 1]) * 26 + DigitValue(s[|s| - 1])
  }

  function Pow(b: int, e: nat): int {
    if e == 0 then 1 else b * Pow(b, e - 1)
  }

  /** One turn of the `columnToLetter` loop: `temp` is `(col - 1) % 26`,
      `col - temp - 1` is a multiple of 26, so the division is exact, and the
      next column is non-negative and strictly smaller. */
  lemma StepIsExact(col: int)
    requires col > 0
    ensures var temp := (col - 1) % 26;
            && 0 <= temp < 26
            && (col - temp - 1) % 26 == 0
            && (col - temp - 1) / 26 == (col - 1) / 26
            && 0 <= (col - temp - 1) / 26 < col
  {
  }

  /** `columnToLetter(column)`. */
  method ColumnToLetter(column: int) returns (letter: string)
    ensures letter == Encode(column)
    ensures column <= 0 ==> letter == ""
    ensures column >= 1 ==> letter != "" && IsLabel(letter) && Decode(letter) == column
  {
    var temp: int;
    letter := "";
    var col := column;
    while col > 0
      invariant Encode(col) + letter == Encode(column)
      decreases col
    {
      temp := (col - 1) % 26;
      StepIsExact(col);
      ghost var next := (col - temp - 1) / 26;
      assert Encode(col) == Encode(next) + [Letter(temp + 1)];
      assert Encode(next) + ([Letter(temp + 1)] + letter) == Encode(column);
      letter := [(temp + 65) as char] + letter;
      col := (col - temp - 1) / 26;
    }
    DecodeEncode(column);
  }

  /** `letterToColumn(letter)`: the sum of each letter's value times 26 to
      the power of the number of letters after it. */
  method LetterToColumn(letter: string) returns (column: int)
    ensures column == Decode(letter)
    ensures letter == "" ==> column == 0
    ensures IsLabel(letter) ==> Encode(column) == letter
  {
    column := 0;
    var length := |letter|;
    for i := 0 to length
      invariant column == Decode(letter[..i]) * Pow(26, length - i)
    {
      var p := Pow(26, length - i - 1);
      assert Pow(26, length - i) == 26 * p;
      assert letter[..i + 1][..i] == letter[..i];
      calc {
        column + DigitValue(letter[i]) * p;
        Decode(letter[..i]) * (26 * p) + DigitValue(letter[i]) * p;
        (Decode(letter[..i]) * 26 + DigitValue(letter[i])) * p;
        Decode(letter[..i + 1]) * p;
      }
      column := column + DigitValue(letter[i]) * p;
    }
    assert letter[..length] == letter;
    if IsLabel(letter) {
      EncodeDecode(letter);
    }
  }

  /** Decoding the label of a column gives the column back; a column of 0 or
      less has the empty label, which decodes to 0. */
  lemma {:induction false} DecodeEncode(n: int)
    ensures Decode(Encode(n)) == if n >= 1 then n else 0
    decreases n
  {
    if n >= 1 {
      var q, d := (n - 1) / 26, (n - 1) % 26 + 1;
      DecodeEncode(q);
      var s := Encode(n);
      assert s[..|s| - 1] == Encode(q);
      assert Decode(s) == Decode(Encode(q)) * 26 + d;
    }
  }

  /** 26 * q + r with 0 <= r < 26 divides back into q and r. */
  lemma DivModBase(q: int, r: int)
    requires 0 <= r < 26
    ensures (26 * q + r) / 26 == q && (26 * q + r) % 26 == r
  {
  }

  /** A label decodes to a positive column exactly when it is non-empty. */
  lemma {:induction false} DecodeLabelSign(s: string)
    requires IsLabel(s)
    ensures Decode(s) >= 0
    ensures Decode(s) >= 1 <==> s != []
  {
    if s != [] {
      DecodeLabelSign(s[..|s| - 1]);
    }
  }

  /** Encoding the column of a label gives the label back. */
  lemma {:induction false} EncodeDecode(s: string)
    requires IsLabel(s)
    ensures Encode(Decode(s)) == s
  {
    if s != [] {
      var p := s[..|s| - 1];
      var d := DigitValue(s[|s| - 1]);
      assert IsLabel(p);
      EncodeDecode(p);
      DecodeLabelSign(p);
      var n := Decode(s);
      assert n == Decode(p) * 26 + d;
      DivModBase(Decode(p), d - 1);
      assert (n - 1) / 26 == Decode(p) && (n - 1) % 26 + 1 == d;
      assert Letter(d) == s[|s| - 1];
      assert s == p + [s[|s| - 1]];
    }
  }

  /** The labels of the first columns and of the columns where the label
      grows by a letter. */
  lemma ColumnExamples()
    ensures Encode(1) == "A" && Encode(26) == "Z" && Encode(27) == "AA"
    ensures Encode(702) == "ZZ" && Encode(703) == "AAA"
    ensures Decode("A") == 1 && Decode("Z") == 26 && Decode("AA") == 27
  {
    assert Encode(0) == "";
    assert Encode(1) == "A";
    assert Encode(26) == "Z";
    assert Encode(27) == Encode(1) + "A";
    assert Encode(702) == Encode(26) + "Z";
    assert Encode(703) == Encode(27) + "A";
  }
}
