/** Field kinds, field values and the coercion of one CSV cell into a field
    (`CsvSerializer.SetValue`).

    The kinds are the field types the coercion distinguishes: `string`, a
    `string[]` or `int[]` array (split on `,`), an enum (given by its member
    names in declaration order, member `i` having value `i`) and `int`, whose
    text either holds a `.` and goes through a decimal number rounded half to
    even, or is read as a whole number. */
module CsvValues {
  import opened Wrappers

  /** The exceptions the deserializer lets escape. */
  datatype CsvError =
    | NoHeaderRow                    // the text has no row at all
    | DuplicateKey(key: string)      // a header key added to the index twice
    | UnknownEnumName(cell: string)  // no enum member has this name
    | BadNumber(cell: string)        // the text is not a number the conversion reads
    | IntOverflow(cell: string)      // the number does not fit a 32-bit `int`

  datatype FieldKind =
    | Text
    | TextArray
    | IntArray
    | Enumeration(names: seq<string>)
    | Integer

  datatype Value =
    | Null                   // a reference field never assigned
    | Str(text: string)
    | Strs(items: seq<string>)
    | Ints(numbers: seq<int>)
    | EnumVal(ordinal: nat)
    | IntVal(number: int)

  /** The value a freshly created record holds in a field of this kind. */
  function Default(kind: FieldKind): (v: Value)
    ensures kind.Integer? <==> v == IntVal(0)
    ensures kind.Enumeration? <==> v == EnumVal(0)
    ensures !kind.Integer? && !kind.Enumeration? ==> v == Null
  {
    match kind
    case Integer => IntVal(0)
    case Enumeration(_) => EnumVal(0)
    case _ => Null
  }

  const MinInt32: int := -0x8000_0000
  const MaxInt32: int := 0x7FFF_FFFF

  predicate InInt32(n: int) {
    MinInt32 <= n <= MaxInt32
  }

  /** `v` is a value a field of this kind can hold. */
  predicate Fits(kind: FieldKind, v: Value) {
    match kind
    case Text => v.Null? || v.Str?
    case TextArray => v.Null? || v.Strs?
    case IntArray => v.Null? || (v.Ints? && forall i :: 0 <= i < |v.numbers| ==> InInt32(v.numbers[i]))
    case Enumeration(names) => v.EnumVal?
    case Integer => v.IntVal? && InInt32(v.number)
  }

  // ---------------------------------------------------------------------------
  // Splitting an array cell on ','.

  const Comma: char := ','

  /** `String.Split(',')`: the pieces between commas, empty pieces kept. */
  function Split(s: string): (parts: seq<string>)
    ensures |parts| >= 1
    ensures forall i :: 0 <= i < |parts| ==> Comma !in parts[i]
  {
    if s == [] then [[]]
    else
      var rest := Split(s[1..]);
      if s[0] == Comma then [[]] + rest
      else [[s[0]] + rest[0]] + rest[1..]
  }

  /** The pieces joined with commas between them. */
  function Join(parts: seq<string>): string
    requires |parts| >= 1
  {
    if |parts| == 1 then parts[0] else parts[0] + [Comma] + Join(parts[1..])
  }

  function CountOf(s: string, c: char): nat {
    if s == [] then 0 else (if s[0] == c then 1 else 0) + CountOf(s[1..], c)
  }

  lemma {:induction false} JoinSplit(s: string)
    ensures Join(Split(s)) == s
    ensures |Split(s)| == CountOf(s, Comma) + 1
  {
    if s != [] {
      JoinSplit(s[1..]);
      var rest := Split(s[1..]);
      if s[0] != Comma {
        if |rest| == 1 {
          assert Join(Split(s)) == [s[0]] + rest[0];
        } else {
          assert Join(Split(s)) == [s[0]] + rest[0] + [Comma] + Join(rest[1..]);
        }
      }
    }
  }

  lemma {:induction false} SplitJoin(parts: seq<string>)
    requires |parts| >= 1
    requires forall i :: 0 <= i < |parts| ==> Comma !in parts[i]
    ensures Split(Join(parts)) == parts
    decreases |parts|, |parts[0]|
  {
    var p := parts[0];
    if p == [] {
      if |parts| > 1 {
        assert Join(parts) == [Comma] + Join(parts[1..]);
        SplitJoin(parts[1..]);
        assert Join(parts)[1..] == Join(parts[1..]);
        assert [[]] + parts[1..] == parts;
      }
    } else {
      var tail := [p[1..]] + parts[1..];
      assert forall i :: 0 <= i < |tail| ==> Comma !in tail[i] by {
        forall i | 0 <= i < |tail| ensures Comma !in tail[i] {
          if i == 0 {
            assert forall c :: c in p[1..] ==> c in p;
          } else {
            assert tail[i] == parts[i];
          }
        }
      }
      SplitJoin(tail);
      assert Join(parts) == [p[0]] + Join(tail) by {
        if |parts| == 1 {
          assert p == [p[0]] + p[1..];
        } else {
          assert tail[1..] == parts[1..];
          assert p == [p[0]] + p[1..];
        }
      }
      assert Join(parts)[1..] == Join(tail);
      assert p[0] in p;
      assert p == [p[0]] + p[1..];
      assert [[p[0]] + p[1..]] + parts[1..] == parts;
    }
  }

  /** An array cell splits into one piece more than it has commas, and joining
      the pieces gives the cell back; pieces without commas survive a join and
      a split. */
  lemma SplitRoundTrip(s: string, parts: seq<string>)
    requires |parts| >= 1
    requires forall i :: 0 <= i < |parts| ==> Comma !in parts[i]
    ensures Join(Split(s)) == s
    ensures |Split(s)| == CountOf(s, Comma) + 1
    ensures Split(Join(parts)) == parts
  {
    JoinSplit(s);
    SplitJoin(parts);
  }

  // ---------------------------------------------------------------------------
  // Whole numbers.

  predicate IsDigit(c: char) {
    '0' <= c <= '9'
  }

  predicate AllDigits(s: string) {
    forall i :: 0 <= i < |s| ==> IsDigit(s[i])
  }

  /** The number a digit string denotes (0 for the empty string). */
  function DigitsValue(s: string): nat
    requires AllDigits(s)
  {
    if s == [] then 0 else DigitsValue(s[..|s| - 1]) * 10 + (s[|s| - 1] as int - '0' as int)
  }

  function DigitChar(d: nat): (c: char)
    requires d < 10
    ensures IsDigit(c) && c as int - '0' as int == d
  {
    ('0' as int + d) as char
  }

  /** The shortest decimal digit string of `n`. */
  function NatDigits(n: nat): (s: string)
    ensures |s| >= 1 && AllDigits(s)
    ensures DigitsValue(s) == n
  {
    if n < 10 then [DigitChar(n)]
    else
      var s := NatDigits(n / 10) + [DigitChar(n % 10)];
      assert s[..|s| - 1] == NatDigits(n / 10);
      s
  }

  /** A leading `-` or `+` and what follows it. */
  function SignOf(s: string): (bool, string) {
    if |s| > 0 && (s[0] == '-' || s[0] == '+') then (s[0] == '-', s[1..]) else (false, s)
  }

  /** `Convert.ChangeType(text, typeof(int))`: an optional sign and at least
      one digit, inside the 32-bit range. */
  function ParseInt32(s: string): (r: Result<int, CsvError>)
    ensures r.Success? ==> InInt32(r.value)
    ensures r.Failure? ==> r.error == BadNumber(s) || r.error == IntOverflow(s)
    ensures r.Success? ==> s != [] && SignOf(s).1 != [] && AllDigits(SignOf(s).1)
  {
    var (neg, body) := SignOf(s);
    if body == [] || !AllDigits(body) then Failure(BadNumber(s))
    else
      var v: int := if neg then -(DigitsValue(body) as int) else DigitsValue(body);
      if InInt32(v) then Success(v) else Failure(IntOverflow(s))
  }

  /** The decimal text of a number, with a `-` when it is negative. */
  function FormatInt(n: int): (s: string)
    ensures |s| >= 1
  {
    if n < 0 then ['-'] + NatDigits(-n) else NatDigits(n)
  }

  /** Every 32-bit number reads back from its decimal text, and no text of a
      number outside the range reads at all. */
  lemma ParseFormatInt(n: int)
    ensures InInt32(n) ==> ParseInt32(FormatInt(n)) == Success(n)
    ensures !InInt32(n) ==> ParseInt32(FormatInt(n)) == Failure(IntOverflow(FormatInt(n)))
  {
    var s := FormatInt(n);
    if n < 0 {
      assert SignOf(s) == (true, NatDigits(-n));
    } else {
      assert SignOf(s) == (false, NatDigits(n));
    }
  }

  // ---------------------------------------------------------------------------
  // Numbers with a decimal point.

  function Pow10(k: nat): (p: nat)
    ensures p >= 1
  {
    if k == 0 then 1 else 10 * Pow10(k - 1)
  }

  /** `n / d` rounded to the nearest whole number, a tie going to the even one
      (the rounding of a `float` converted to an `int`). */
  function RoundHalfEven(n: nat, d: nat): (q: nat)
    requires d >= 1
    ensures -(d as int) <= 2 * (n - q * d) <= d
    ensures 2 * (n - q * d) == d ==> q % 2 == 0
    ensures 2 * (n - q * d) == -(d as int) ==> q % 2 == 0
  {
    var q0 := n / d;
    var r := n % d;
    DivModParts(n, d);
    if 2 * r < d then q0
    else if 2 * r > d then q0 + 1
    else if q0 % 2 == 0 then q0
    else q0 + 1
  }

  /** Any other whole number is farther from `n / d`, or as far and odd: the
      rounding picks the nearest whole number, the even one on a tie. */
  lemma RoundHalfEvenNearest(n: nat, d: nat, m: int)
    requires d >= 1
    ensures var q := RoundHalfEven(n, d);
      m != q ==> Abs(n - m * d) > Abs(n - q * d) || (Abs(n - m * d) == Abs(n - q * d) && m % 2 == 1)
  {
    var q := RoundHalfEven(n, d);
    if m != q {
      OtherMultiple(n, d, q, m);
      var e, x := n - q * d, (q - m) * d;
      assert n - m * d == e + x;
      assert -(d as int) <= 2 * e <= d;
      if q - m == 1 || q - m == -1 {
        assert Abs(e + x) == Abs(e) ==> q % 2 == 0;
      }
    }
  }

  /** The remainder of `n` after `n / d` and after one more `d`. */
  lemma DivModParts(n: nat, d: nat)
    requires d >= 1
    ensures n - (n / d) * d == n % d
    ensures n - (n / d + 1) * d == n % d - d
  {
    assert (n / d + 1) * d == (n / d) * d + d;
  }

  /** Moving from the multiple `q * d` to another multiple `m * d` moves by
      at least `d`. */
  lemma OtherMultiple(n: int, d: nat, q: int, m: int)
    requires d >= 1 && m != q
    ensures n - m * d == (n - q * d) + (q - m) * d
    ensures q - m == 1 ==> (q - m) * d == d
    ensures q - m == -1 ==> (q - m) * d == -(d as int)
    ensures q - m >= 2 ==> (q - m) * d >= 2 * d
    ensures q - m <= -2 ==> (q - m) * d <= -2 * d
  {
    var t := q - m;
    assert t * d == q * d - m * d;
    if t >= 2 {
      MulAtLeast(t, d);
    } else if t <= -2 {
      MulAtLeast(-t, d);
      assert t * d == -((-t) * d);
    }
  }

  lemma MulAtLeast(a: int, b: nat)
    requires a >= 2
    ensures a * b >= 2 * b
  {
    assert a * b - 2 * b == (a - 2) * b;
    assert (a - 2) * b >= 0;
  }

  function Abs(x: int): nat {
    if x < 0 then -x else x
  }

  /** The first position of `c` in `s`, or `|s|` when there is none. */
  function IndexOf(s: string, c: char): (k: nat)
    ensures k <= |s|
    ensures k < |s| ==> s[k] == c
    ensures forall i :: 0 <= i < k ==> s[i] != c
  {
    if s == [] then 0 else if s[0] == c then 0 else 1 + IndexOf(s[1..], c)
  }

  /** The digits before and after the point of `body`, when `body` is digits,
      one point and digits, with at least one digit in all. */
  function SplitPoint(body: string): (r: Option<(string, string)>)
    ensures r.Some? ==> AllDigits(r.value.0) && AllDigits(r.value.1) &&
                        |r.value.0| + |r.value.1| > 0 && body == r.value.0 + ['.'] + r.value.1
  {
    var k := IndexOf(body, '.');
    if k == |body| then None
    else
      var whole, frac := body[..k], body[k + 1..];
      if !AllDigits(whole) || !AllDigits(frac) || |whole| + |frac| == 0 then None
      else
        assert body == whole + ['.'] + frac;
        Some((whole, frac))
  }

  /** `whole.frac` times `10^|frac|`. */
  function DecimalNumerator(whole: string, frac: string): nat
    requires AllDigits(whole) && AllDigits(frac)
  {
    DigitsValue(whole) * Pow10(|frac|) + DigitsValue(frac)
  }

  /** `Convert.ChangeType(Convert.ChangeType(text, typeof(float)),
      typeof(int))` for text holding a `.`: an optional sign, then digits, the
      point and digits, as an exact decimal rounded half to even, inside the
      32-bit range. */
  function DecimalToInt32(s: string): (r: Result<int, CsvError>)
    ensures r.Success? ==> InInt32(r.value)
    ensures r.Failure? ==> r.error == BadNumber(s) || r.error == IntOverflow(s)
    ensures r.Success? ==> SplitPoint(SignOf(s).1).Some?
  {
    var (neg, body) := SignOf(s);
    match SplitPoint(body)
    case None => Failure(BadNumber(s))
    case Some((whole, frac)) => RoundedInt(neg, whole, frac, s)
  }

  /** `whole.frac`, negated when `neg`, rounded half to even and range
      checked; `s` is the cell reported on overflow. */
  function RoundedInt(neg: bool, whole: string, frac: string, s: string): (r: Result<int, CsvError>)
    requires AllDigits(whole) && AllDigits(frac)
    ensures r.Success? ==> InInt32(r.value)
  {
    var m := RoundHalfEven(DecimalNumerator(whole, frac), Pow10(|frac|));
    var v: int := if neg then -(m as int) else m;
    if InInt32(v) then Success(v) else Failure(IntOverflow(s))
  }

  lemma SplitPointOf(whole: string, frac: string)
    requires AllDigits(whole) && AllDigits(frac) && |whole| + |frac| > 0
    ensures SplitPoint(whole + ['.'] + frac) == Some((whole, frac))
  {
    var body := whole + ['.'] + frac;
    assert body[|whole|] == '.';
    forall i | 0 <= i < |whole| ensures body[i] != '.' {
      assert body[i] == whole[i] && IsDigit(whole[i]);
    }
    IndexOfFirst(body, '.', |whole|);
    assert body[..|whole|] == whole && body[|whole| + 1..] == frac;
  }

  lemma SignOfUnsigned(body: string)
    requires body == [] || IsDigit(body[0]) || body[0] == '.'
    ensures SignOf(body) == (false, body)
  {
  }

  lemma SignOfMinus(body: string)
    ensures SignOf(['-'] + body) == (true, body)
  {
    assert (['-'] + body)[1..] == body;
  }

  /** Unsigned text with a point is `whole.frac` rounded half to even. */
  lemma DecimalUnsigned(whole: string, frac: string)
    requires AllDigits(whole) && AllDigits(frac) && |whole| + |frac| > 0
    ensures DecimalToInt32(whole + ['.'] + frac) == RoundedInt(false, whole, frac, whole + ['.'] + frac)
  {
    var body := whole + ['.'] + frac;
    SplitPointOf(whole, frac);
    assert body[0] == if |whole| > 0 then whole[0] else '.';
    SignOfUnsigned(body);
  }

  /** With a leading `-`, the sign is applied after rounding. */
  lemma DecimalNegative(whole: string, frac: string)
    requires AllDigits(whole) && AllDigits(frac) && |whole| + |frac| > 0
    ensures DecimalToInt32(['-'] + whole + ['.'] + frac) == RoundedInt(true, whole, frac, ['-'] + whole + ['.'] + frac)
  {
    var body := whole + ['.'] + frac;
    SplitPointOf(whole, frac);
    assert ['-'] + whole + ['.'] + frac == ['-'] + body;
    SignOfMinus(body);
  }

  lemma IndexOfFirst(s: string, c: char, k: nat)
    requires k < |s| && s[k] == c
    requires forall i :: 0 <= i < k ==> s[i] != c
    ensures IndexOf(s, c) == k
  {
  }

  /** A half goes to the even neighbour below. */
  lemma DecimalHalfDown()
    ensures DecimalToInt32("2.5") == Success(2)
  {
    var s, w, f := "2.5", "2", "5";
    DecimalUnsigned(w, f);
    assert w + ['.'] + f == s;
    RoundedTwoAndAHalf(s);
  }

  lemma RoundedTwoAndAHalf(s: string)
    ensures RoundedInt(false, "2", "5", s) == Success(2)
  {
    assert DecimalNumerator("2", "5") == 25;
  }

  /** A half goes to the even neighbour above. */
  lemma DecimalHalfUp()
    ensures DecimalToInt32("3.5") == Success(4)
  {
    var s, w, f := "3.5", "3", "5";
    DecimalUnsigned(w, f);
    assert w + ['.'] + f == s;
    RoundedThreeAndAHalf(s);
  }

  lemma RoundedThreeAndAHalf(s: string)
    ensures RoundedInt(false, "3", "5", s) == Success(4)
  {
    assert DecimalNumerator("3", "5") == 35;
  }

  /** The sign is applied after rounding. */
  lemma DecimalNegativeHalf()
    ensures DecimalToInt32("-1.5") == Success(-2)
  {
    var s, w, f := "-1.5", "1", "5";
    DecimalNegative(w, f);
    assert ['-'] + w + ['.'] + f == s;
    RoundedOneAndAHalf(s);
  }

  lemma RoundedOneAndAHalf(s: string)
    ensures RoundedInt(true, "1", "5", s) == Success(-2)
  {
    assert DecimalNumerator("1", "5") == 15;
  }

  /** Below a half rounds down. */
  lemma DecimalBelowHalf()
    ensures DecimalToInt32("1.49") == Success(1)
  {
    var s, w, f := "1.49", "1", "49";
    DecimalUnsigned(w, f);
    assert w + ['.'] + f == s;
    RoundedOneFortyNine(s);
  }

  lemma RoundedOneFortyNine(s: string)
    ensures RoundedInt(false, "1", "49", s) == Success(1)
  {
    var f := "49";
    assert DigitsValue(f) == 49 by {
      assert f[..1] == "4";
    }
    assert DigitsValue("1") == 1 && Pow10(2) == 100;
    assert DecimalNumerator("1", f) == 149;
  }

  /** A second point makes the text unreadable. */
  lemma DecimalTwoPoints()
    ensures DecimalToInt32("1.2.3") == Failure(BadNumber("1.2.3"))
  {
    var s := "1.2.3";
    SignOfUnsigned(s);
    IndexOfFirst(s, '.', 1);
    assert s[2..] == "2.3" && !IsDigit(s[2..][1]);
  }

  // ---------------------------------------------------------------------------
  // One cell into one field.

  /** Each piece of an `int[]` cell converted, the first failure escaping. */
  function ParseAll(parts: seq<string>): (r: Result<seq<int>, CsvError>)
    ensures r.Success? <==> forall i :: 0 <= i < |parts| ==> ParseInt32(parts[i]).Success?
    ensures r.Success? ==> |r.value| == |parts| &&
                           forall i :: 0 <= i < |parts| ==> r.value[i] == ParseInt32(parts[i]).value
  {
    if parts == [] then Success([])
    else
      match ParseInt32(parts[0])
      case Failure(e) => Failure(e)
      case Success(n) =>
        match ParseAll(parts[1..])
        case Failure(e) => Failure(e)
        case Success(ns) => Success([n] + ns)
  }

  /** The position of the first member called `name`. */
  function FirstIndex(names: seq<string>, name: string): (i: nat)
    requires name in names
    ensures i < |names| && names[i] == name
    ensures forall j :: 0 <= j < i ==> names[j] != name
  {
    if names[0] == name then 0 else 1 + FirstIndex(names[1..], name)
  }

  /** The value a field holding `current` has after the cell is stored in it.
      An empty cell leaves the field alone; an array cell is split on commas;
      an enum cell must name a member exactly; an `int` cell with a point is
      rounded, any other `int` cell read as a whole number. */
  function SetValue(kind: FieldKind, current: Value, cell: string): (r: Result<Value, CsvError>)
    ensures cell == [] ==> r == Success(current)
    ensures cell != [] && r.Success? ==> Fits(kind, r.value)
    ensures cell != [] && kind.Text? ==> r == Success(Str(cell))
    ensures cell != [] && kind.TextArray? ==> r == Success(Strs(Split(cell))) && Join(Split(cell)) == cell
    ensures cell != [] && kind.Enumeration? ==>
              (r.Success? <==> cell in kind.names) &&
              (r.Success? ==> r.value.ordinal < |kind.names| && kind.names[r.value.ordinal] == cell) &&
              (r.Failure? ==> r.error == UnknownEnumName(cell))
    ensures cell != [] && kind.IntArray? ==>
              (r.Success? <==> forall i :: 0 <= i < |Split(cell)| ==> ParseInt32(Split(cell)[i]).Success?) &&
              (r.Success? ==> r.value.Ints? && |r.value.numbers| == |Split(cell)| &&
                              forall i :: 0 <= i < |Split(cell)| ==> r.value.numbers[i] == ParseInt32(Split(cell)[i]).value)
    ensures cell != [] && kind.Integer? && '.' !in cell ==>
              r == (match ParseInt32(cell) case Success(n) => Success(IntVal(n)) case Failure(e) => Failure(e))
    ensures cell != [] && kind.Integer? && '.' in cell ==>
              r == (match DecimalToInt32(cell) case Success(n) => Success(IntVal(n)) case Failure(e) => Failure(e))
  {
    if cell == [] then Success(current)
    else
      match kind
      case Text => Success(Str(cell))
      case TextArray =>
        JoinSplit(cell);
        Success(Strs(Split(cell)))
      case IntArray =>
        var parts := Split(cell);
        var all := ParseAll(parts);
        assert all.Success? <==> forall i :: 0 <= i < |parts| ==> ParseInt32(parts[i]).Success?;
        (match all
         case Success(ns) => Success(Ints(ns))
         case Failure(e) => Failure(e))
      case Enumeration(names) =>
        if cell in names then Success(EnumVal(FirstIndex(names, cell))) else Failure(UnknownEnumName(cell))
      case Integer =>
        var n := if '.' in cell then DecimalToInt32(cell) else ParseInt32(cell);
        match n
        case Success(n) => Success(IntVal(n))
        case Failure(e) => Failure(e)
  }

  /** An `int` field stores back the number whose decimal text it is given. */
  lemma IntegerCellRoundTrip(current: Value, n: int)
    requires InInt32(n)
    ensures SetValue(Integer, current, FormatInt(n)) == Success(IntVal(n))
  {
    ParseFormatInt(n);
    NoPointInFormat(n);
  }

  lemma NoPointInFormat(n: int)
    ensures '.' !in FormatInt(n)
  {
    var s := FormatInt(n);
    if n < 0 {
      assert forall i :: 1 <= i < |s| ==> s[i] == NatDigits(-n)[i - 1];
    }
  }

  /** An array field stores back the pieces it is given, joined with commas,
      provided no piece holds a comma and the joined text is not empty. */
  lemma TextArrayCellRoundTrip(current: Value, parts: seq<string>)
    requires |parts| >= 1 && Join(parts) != []
    requires forall i :: 0 <= i < |parts| ==> Comma !in parts[i]
    ensures SetValue(TextArray, current, Join(parts)) == Success(Strs(parts))
  {
    SplitJoin(parts);
  }
}
