/**
 * The integer key (`src/key/number.rs`): an `i16` value that must be one of
 * a list of legal values, set from a number or from its decimal text.
 */
module Numbers {
  import opened Wrappers
  import opened Errors
  import opened Permutations

  const I16_MIN: int := -32768
  const I16_MAX: int := 32767

  /* ------------------------------------------------------------------ */
  /*                        decimal text of an i16                      */
  /* ------------------------------------------------------------------ */

  predicate IsDigit(c: char) {
    '0' <= c <= '9'
  }

  predicate AllDigits(s: string) {
    forall i :: 0 <= i < |s| ==> IsDigit(s[i])
  }

  function DigitChar(d: int): (c: char)
    requires 0 <= d < 10
    ensures IsDigit(c) && c as int - '0' as int == d
  {
    (48 + d) as char
  }

  /** The decimal digits of `n`, most significant first. */
  function NatString(n: nat): string
    decreases n
  {
    if n < 10 then [DigitChar(n)] else NatString(n / 10) + [DigitChar(n % 10)]
  }

  /** `format!("{}", n)`. */
  function Display(n: int): string {
    if n < 0 then "-" + NatString(-n) else NatString(n)
  }

  /** The entries of `v` shown and separated by `", "`. */
  function Joined(v: seq<int>): string {
    if |v| == 0 then ""
    else if |v| == 1 then Display(v[0])
    else Joined(v[..|v| - 1]) + ", " + Display(v[|v| - 1])
  }

  /** `format!("{:?}", v)` for a vector of integers. */
  function DebugList(v: seq<int>): string {
    "[" + Joined(v) + "]"
  }

  /** The value of a string of decimal digits. */
  function DigitsValue(d: string): nat
    requires AllDigits(d)
  {
    if d == [] then 0 else 10 * DigitsValue(d[..|d| - 1]) + (d[|d| - 1] as int - '0' as int)
  }

  /**
   * `str::parse::<i16>`: an optional `+` or `-`, then at least one decimal
   * digit and nothing else, with the value inside the `i16` range.
   */
  function ParseI16(s: string): Option<int> {
    if |s| == 0 then None
    else if (s[0] == '+' || s[0] == '-') && |s| == 1 then None
    else
      var digits := if s[0] == '+' || s[0] == '-' then s[1..] else s;
      if !AllDigits(digits) then None
      else
        var mag: int := DigitsValue(digits);
        var v := if s[0] == '-' then -mag else mag;
        if I16_MIN <= v <= I16_MAX then Some(v) else None
  }

  /** The digits of `n` are digits, there is at least one, and they read back as `n`. */
  lemma {:induction false} NatStringValue(n: nat)
    ensures |NatString(n)| > 0 && AllDigits(NatString(n)) && DigitsValue(NatString(n)) == n
  {
    if n >= 10 {
      NatStringValue(n / 10);
      var s := NatString(n);
      assert s[..|s| - 1] == NatString(n / 10);
    }
  }

  /** Parsing the decimal text of any `i16` gives it back. */
  lemma ParseDisplay(n: int)
    requires I16_MIN <= n <= I16_MAX
    ensures ParseI16(Display(n)) == Some(n)
  {
    if n < 0 {
      NatStringValue(-n);
      ParseNegative(NatString(-n));
    } else {
      NatStringValue(n);
      ParseUnsigned(NatString(n));
    }
  }

  /** Unsigned digits within range parse as their value. */
  lemma ParseUnsigned(t: string)
    requires |t| > 0 && AllDigits(t) && DigitsValue(t) <= I16_MAX
    ensures ParseI16(t) == Some(DigitsValue(t))
  {
    assert IsDigit(t[0]);
  }

  /** A minus sign and digits within range parse as the negated value. */
  lemma ParseNegative(t: string)
    requires |t| > 0 && AllDigits(t) && DigitsValue(t) <= -I16_MIN
    ensures ParseI16("-" + t) == Some(-(DigitsValue(t) as int))
  {
    assert ("-" + t)[1..] == t;
  }

  /** Text that is not an `i16` is refused: empty text, a lone sign, a stray letter. */
  lemma ParseRejects()
    ensures ParseI16("") == None && ParseI16("-") == None && ParseI16("12a") == None
  {
    assert !IsDigit("12a"[2]);
  }

  /** A value beyond the `i16` range is refused. */
  lemma ParseOverflow()
    ensures ParseI16("40000") == None
  {
    var d := "40000";
    assert AllDigits(d);
    assert d[..4] == "4000" && d[..4][..3] == "400" && d[..4][..3][..2] == "40" && d[..4][..3][..2][..1] == "4";
    assert DigitsValue("4") == 4;
    assert DigitsValue("40") == 40;
    assert DigitsValue("400") == 400;
    assert DigitsValue("4000") == 4000;
    assert DigitsValue(d) == 40000;
  }

  /** Signed text is read with its sign. */
  lemma ParseSigned()
    ensures ParseI16("-12") == Some(-12) && ParseI16("+7") == Some(7)
  {
    assert "-12"[1..] == "12" && "12"[..1] == "1";
    assert DigitsValue("1") == 1;
    assert DigitsValue("12") == 12;
    assert "+7"[1..] == "7";
    assert DigitsValue("7") == 7;
  }

  /** The message `check_val` gives for an illegal value. */
  function RangeMessage(legal: seq<int>): string {
    "Number should be in range " + DebugList(legal)
  }

  class Number {
    var value: int
    var legalValues: seq<int>
    var desc: string

    /** `get`. */
    function Get(): int
      reads this
    {
      value
    }

    /** `check_val`: a legal argument, or the error naming the legal values. */
    function CheckVal(arg: int): (r: Result<int, Error>)
      reads this
      ensures r.Success? <==> arg in legalValues
      ensures r.Success? ==> r.value == arg
      ensures r.Failure? ==> r.error == InvalidKeyFmt(RangeMessage(legalValues), Display(arg))
    {
      if arg in legalValues then Success(arg)
      else Failure(InvalidKeyFmt(RangeMessage(legalValues), Display(arg)))
    }

    /** `parse`: the value of `arg`, or the error naming the expected format. */
    static function Parse(arg: string): (r: Result<int, Error>)
      ensures r.Success? <==> ParseI16(arg).Some?
      ensures r.Success? ==> r.value == ParseI16(arg).value && I16_MIN <= r.value <= I16_MAX
      ensures r.Failure? ==> r.error == InvalidKeyFmt("An integer", arg)
    {
      match ParseI16(arg)
      case Some(v) => Success(v)
      case None => Failure(InvalidKeyFmt("An integer", arg))
    }

    /** `identity`: value 0, legal values `0..cpCount`. */
    constructor Identity(cpCount: nat)
      ensures value == 0 && legalValues == Permutations.Identity(cpCount) && desc == "<integer>"
    {
      value := 0;
      legalValues := Permutations.Identity(cpCount);
      desc := "<integer>";
    }

    /** The state `new` builds before it checks its argument. */
    constructor Unchecked(cpCount: nat, arg: int)
      ensures value == arg && legalValues == Permutations.Identity(cpCount) && desc == "<integer>"
    {
      value := arg;
      legalValues := Permutations.Identity(cpCount);
      desc := "<integer>";
    }

    /** `new` with a number: legal values `0..cpCount`, failing unless `arg` is one of them. */
    static method New(cpCount: nat, arg: int) returns (r: Result<Number, Error>)
      ensures r.Success? <==> 0 <= arg < cpCount
      ensures r.Success? ==> fresh(r.value) && r.value.value == arg && r.value.legalValues == Permutations.Identity(cpCount)
      ensures r.Failure? ==> r.error == InvalidKeyFmt(RangeMessage(Permutations.Identity(cpCount)), Display(arg))
    {
      var n := new Number.Unchecked(cpCount, arg);
      if 0 <= arg < cpCount {
        assert n.legalValues[arg] == arg;
      }
      match n.CheckVal(arg) {
        case Success(_) => r := Success(n);
        case Failure(e) => r := Failure(e);
      }
    }

    /** `new` with text: parse it, then `new` with the number. */
    static method NewStr(cpCount: nat, arg: string) returns (r: Result<Number, Error>)
      ensures ParseI16(arg).None? ==> r == Failure(InvalidKeyFmt("An integer", arg))
      ensures ParseI16(arg).Some? ==> (r.Success? <==> 0 <= ParseI16(arg).value < cpCount)
      ensures r.Success? ==> fresh(r.value) && r.value.value == ParseI16(arg).value
    {
      match Parse(arg) {
        case Failure(e) => r := Failure(e);
        case Success(v) => r := New(cpCount, v);
      }
    }

    /** `set` with a number: the value changes only when `arg` is legal. */
    method Set(arg: int) returns (r: Outcome<Error>)
      modifies this
      ensures arg in legalValues ==> r == Pass && value == arg
      ensures arg !in legalValues ==> r == Fail(InvalidKeyFmt(RangeMessage(legalValues), Display(arg))) && value == old(value)
      ensures legalValues == old(legalValues) && desc == old(desc)
    {
      match CheckVal(arg) {
        case Success(v) =>
          value := v;
          r := Pass;
        case Failure(e) =>
          r := Fail(e);
      }
    }

    /** `set` with text. */
    method SetStr(arg: string) returns (r: Outcome<Error>)
      modifies this
      ensures ParseI16(arg).None? ==> r == Fail(InvalidKeyFmt("An integer", arg)) && value == old(value)
      ensures ParseI16(arg).Some? && ParseI16(arg).value in legalValues ==> r == Pass && value == ParseI16(arg).value
      ensures ParseI16(arg).Some? && ParseI16(arg).value !in legalValues ==> r.Fail? && value == old(value)
      ensures legalValues == old(legalValues) && desc == old(desc)
    {
      match Parse(arg) {
        case Failure(e) => r := Fail(e);
        case Success(v) => r := Set(v);
      }
    }

    /** `set_legal_values`: replace the legal values and describe them. */
    method SetLegalValues(range: seq<int>)
      modifies this
      ensures legalValues == range && desc == "<integer: " + DebugList(range) + ">"
      ensures value == old(value)
    {
      legalValues := range;
      desc := "<integer: " + DebugList(range) + ">";
    }

    /** `reset`: the first legal value; the index panics when there is none. */
    method Reset()
      modifies this
      requires |legalValues| > 0
      ensures legalValues == old(legalValues) && desc == old(desc)
      ensures value == legalValues[0] && value in legalValues
    {
      value := legalValues[0];
    }

    /** `randomize`: `pick` stands for the draw of an index below the number of legal values. */
    method Randomize(pick: int)
      modifies this
      requires 0 <= pick < |legalValues|
      ensures legalValues == old(legalValues) && desc == old(desc)
      ensures value == legalValues[pick] && value in legalValues
    {
      value := legalValues[pick];
    }
  }

  /** Setting a legal value from its decimal text stores it. */
  lemma SetStrDisplay(num: Number, v: int)
    requires I16_MIN <= v <= I16_MAX && v in num.legalValues
    ensures Number.Parse(Display(v)) == Success(v) && num.CheckVal(v) == Success(v)
  {
    ParseDisplay(v);
  }

  /** The range message for `0..3`. */
  lemma RangeMessageExample()
    ensures RangeMessage([0, 1, 2]) == "Number should be in range [0, 1, 2]"
  {
    assert [0, 1, 2][..2] == [0, 1] && [0, 1][..1] == [0];
  }
}
