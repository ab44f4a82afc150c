/** Cell addresses of the board.
 *
 *  `fillTable` gives the cell of category `t` and clue `c` the DOM id `${t}-${c}`;
 *  `handleClick` recovers the two indices by splitting that id into characters and
 *  passing the characters at positions 0 and 2 to JavaScript's `Number`.
 */
module CellIds {

  /** A JavaScript number as far as `Number` of one character can produce it. */
  datatype Num = NaN | Int(n: int)

  predicate IsDigit(ch: char) {
    '0' <= ch <= '9'
  }

  function DigitValue(ch: char): (d: nat)
    requires IsDigit(ch)
    ensures d < 10
  {
    ch as int - '0' as int
  }

  function DigitChar(d: nat): (ch: char)
    requires d < 10
    ensures IsDigit(ch) && DigitValue(ch) == d
  {
    ('0' as int + d) as char
  }

  /** The decimal text a template literal `${n}` gives a non-negative integer. */
  function DecimalString(n: nat): (s: string)
    ensures |s| >= 1
    ensures forall i :: 0 <= i < |s| ==> IsDigit(s[i])
    ensures |s| == 1 <==> n < 10
    ensures DigitValue(s[0]) <= n
    ensures n < 10 ==> DigitValue(s[0]) == n
    ensures n >= 10 ==> 1 <= DigitValue(s[0])
  {
    if n < 10 then [DigitChar(n)] else DecimalString(n / 10) + [DigitChar(n % 10)]
  }

  /** The value of the decimal text `s`; the inverse of `DecimalString`. */
  function DecimalValue(s: string): nat
    requires forall i :: 0 <= i < |s| ==> IsDigit(s[i])
  {
    if s == [] then 0 else 10 * DecimalValue(s[..|s| - 1]) + DigitValue(s[|s| - 1])
  }

  lemma {:induction false} DecimalStringSpellsValue(n: nat)
    ensures DecimalValue(DecimalString(n)) == n
  {
    var s := DecimalString(n);
    if n >= 10 {
      DecimalStringSpellsValue(n / 10);
      assert s[..|s| - 1] == DecimalString(n / 10);
    }
  }

  /** JavaScript white space and line terminators: `Number` of such a character is 0. */
  predicate IsJsSpace(ch: char) {
    var k := ch as int;
    k == 0x09 || k == 0x0A || k == 0x0B || k == 0x0C || k == 0x0D || k == 0x20 ||
    k == 0xA0 || k == 0x1680 || (0x2000 <= k <= 0x200A) || k == 0x2028 || k == 0x2029 ||
    k == 0x202F || k == 0x205F || k == 0x3000 || k == 0xFEFF
  }

  /** `Number(ch)` for a one-character string. */
  function NumberOfChar(ch: char): (r: Num)
    ensures r.Int? <==> IsDigit(ch) || IsJsSpace(ch)
    ensures IsDigit(ch) ==> r == Int(DigitValue(ch))
    ensures IsJsSpace(ch) ==> r == Int(0)
    ensures r.Int? ==> 0 <= r.n < 10
  {
    if IsDigit(ch) then Int(DigitValue(ch))
    else if IsJsSpace(ch) then Int(0)
    else NaN
  }

  /** `Number(id.split('')[k])`: a position past the end reads `undefined`, which is NaN. */
  function NumberAt(id: string, k: nat): (r: Num)
    ensures k >= |id| ==> r == NaN
    ensures r.Int? ==> 0 <= r.n < 10
  {
    if k < |id| then NumberOfChar(id[k]) else NaN
  }

  /** The cell id written at jeopardy.js line 128. */
  function EncodeCellId(t: nat, c: nat): (id: string)
    ensures |id| >= 3
    ensures forall i :: 0 <= i < |id| ==> IsDigit(id[i]) || id[i] == '-'
  {
    DecimalString(t) + "-" + DecimalString(c)
  }

  /** The category and clue indices `handleClick` reads back from a cell id. */
  function DecodeCellId(id: string): (tc: (Num, Num))
    ensures tc.0.Int? ==> 0 <= tc.0.n < 10
    ensures tc.1.Int? ==> 0 <= tc.1.n < 10
    ensures |id| < 3 ==> tc.1 == NaN
  {
    (NumberAt(id, 0), NumberAt(id, 2))
  }

  /** Decoding gives back both indices exactly when both are single digits. */
  lemma {:induction false} RoundTripIffSingleDigits(t: nat, c: nat)
    ensures DecodeCellId(EncodeCellId(t, c)) == (Int(t), Int(c)) <==> t < 10 && c < 10
  {
    var st, sc := DecimalString(t), DecimalString(c);
    var id := EncodeCellId(t, c);
    assert id == st + "-" + sc;
    assert id[0] == st[0];
    if t < 10 {
      assert id[2] == sc[0];
    } else {
      assert DigitValue(st[0]) < t;
    }
  }

  /** Every cell of the 6 x 5 board is decoded to its own address. */
  lemma BoardCellsRoundTrip(t: nat, c: nat)
    requires t < 6 && c < 5
    ensures DecodeCellId(EncodeCellId(t, c)) == (Int(t), Int(c))
  {
    RoundTripIffSingleDigits(t, c);
  }

  /** A two-digit category index is misread: "10-3" decodes to category 1 and clue NaN. */
  lemma TwoDigitCategoryMisread()
    ensures EncodeCellId(10, 3) == "10-3"
    ensures DecodeCellId(EncodeCellId(10, 3)) == (Int(1), NaN)
  {
    assert DecimalString(10) == "10";
    assert DecimalString(3) == "3";
  }
}
