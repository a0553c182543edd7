/**
 * The table from PHP's `E_*` error levels to their names, and the lookup
 * that rejects any other level with an "Invalid error type" exception.
 */
module ErrorTypeNames {
  import opened Results

  // PHP's predefined error levels: one bit each.
  const E_ERROR: int := 1
  const E_WARNING: int := 2
  const E_PARSE: int := 4
  const E_NOTICE: int := 8
  const E_CORE_ERROR: int := 16
  const E_CORE_WARNING: int := 32
  const E_COMPILE_ERROR: int := 64
  const E_COMPILE_WARNING: int := 128
  const E_USER_ERROR: int := 256
  const E_USER_WARNING: int := 512
  const E_USER_NOTICE: int := 1024
  const E_STRICT: int := 2048
  const E_RECOVERABLE_ERROR: int := 4096
  const E_DEPRECATED: int := 8192
  const E_USER_DEPRECATED: int := 16384

  /** `ERROR_STRINGS`: level 0 stands for an exception, then one entry per `E_*` level. */
  const ERROR_STRINGS: map<int, string> := map[
    0 := "EXCEPTION",
    E_ERROR := "E_ERROR",
    E_WARNING := "E_WARNING",
    E_PARSE := "E_PARSE",
    E_NOTICE := "E_NOTICE",
    E_CORE_ERROR := "E_CORE_ERROR",
    E_CORE_WARNING := "E_CORE_WARNING",
    E_COMPILE_ERROR := "E_COMPILE_ERROR",
    E_COMPILE_WARNING := "E_COMPILE_WARNING",
    E_USER_ERROR := "E_USER_ERROR",
    E_USER_WARNING := "E_USER_WARNING",
    E_USER_NOTICE := "E_USER_NOTICE",
    E_STRICT := "E_STRICT",
    E_RECOVERABLE_ERROR := "E_RECOVERABLE_ERROR",
    E_DEPRECATED := "E_DEPRECATED",
    E_USER_DEPRECATED := "E_USER_DEPRECATED"
  ]

  /** `\InvalidArgumentException` with its message. */
  datatype InvalidArgument = InvalidArgument(message: string)

  /** `2^i`. */
  function Pow2(i: nat): (p: int)
    ensures p >= 1
  {
    if i == 0 then 1 else 2 * Pow2(i - 1)
  }

  /** The `E_*` levels are the single bits 2^0 to 2^14, in that order. */
  lemma LevelsArePowers()
    ensures Pow2(0) == E_ERROR && Pow2(1) == E_WARNING && Pow2(2) == E_PARSE && Pow2(3) == E_NOTICE
    ensures Pow2(4) == E_CORE_ERROR && Pow2(5) == E_CORE_WARNING && Pow2(6) == E_COMPILE_ERROR
    ensures Pow2(7) == E_COMPILE_WARNING && Pow2(8) == E_USER_ERROR && Pow2(9) == E_USER_WARNING
    ensures Pow2(10) == E_USER_NOTICE && Pow2(11) == E_STRICT && Pow2(12) == E_RECOVERABLE_ERROR
    ensures Pow2(13) == E_DEPRECATED && Pow2(14) == E_USER_DEPRECATED
  {
  }

  /** Each single bit 2^0 to 2^14 is a level of the table. */
  lemma LevelBits(i: nat)
    requires i < 15
    ensures Pow2(i) in ERROR_STRINGS
  {
    LevelsArePowers();
    // One branch per bit, so that each sees its literal case of LevelsArePowers.
    if i == 0 {
    } else if i == 1 {
    } else if i == 2 {
    } else if i == 3 {
    } else if i == 4 {
    } else if i == 5 {
    } else if i == 6 {
    } else if i == 7 {
    } else if i == 8 {
    } else if i == 9 {
    } else if i == 10 {
    } else if i == 11 {
    } else if i == 12 {
    } else if i == 13 {
    } else {
    }
  }

  /** The levels the table knows: 0 and the single bits 2^0 to 2^14, and nothing else. */
  lemma KnownLevels(errorType: int)
    ensures errorType in ERROR_STRINGS <==> errorType == 0 || exists i: nat :: i < 15 && errorType == Pow2(i)
  {
    if exists i: nat :: i < 15 && errorType == Pow2(i) {
      var i: nat :| i < 15 && errorType == Pow2(i);
      LevelBits(i);
    }
    if errorType in ERROR_STRINGS && errorType != 0 {
      LevelsArePowers();
    }
  }

  // ---------------------------------------------------------------------------
  // The exception message: PHP's decimal rendering of an int
  // ---------------------------------------------------------------------------

  /** The digits of a non-negative number, most significant first, without leading zeros. */
  function Digits(n: nat): (s: string)
    ensures |s| >= 1
    ensures forall j :: 0 <= j < |s| ==> '0' <= s[j] <= '9'
    ensures n >= 10 ==> s[0] != '0'
  {
    var d := [(n % 10) as char + '0'];
    if n < 10 then d else Digits(n / 10) + d
  }

  /** `"$n"`: an optional minus sign, then the digits of the magnitude. */
  function Decimal(n: int): (s: string)
    ensures |s| >= 1
    ensures (s[0] == '-') <==> n < 0
  {
    if n < 0 then "-" + Digits(-n) else Digits(n)
  }

  /** The value of a string of decimal digits. */
  function DigitsValue(s: string): int
  {
    if |s| == 0 then 0 else 10 * DigitsValue(s[..|s| - 1]) + (s[|s| - 1] as int - '0' as int)
  }

  /** The value of a decimal rendering, sign included. */
  function DecimalValue(s: string): int
  {
    if |s| > 0 && s[0] == '-' then -DigitsValue(s[1..]) else DigitsValue(s)
  }

  /** Reading the digits back gives the number. */
  lemma {:induction false} DigitsRoundTrip(n: nat)
    ensures DigitsValue(Digits(n)) == n
  {
    var s := Digits(n);
    if n >= 10 {
      DigitsRoundTrip(n / 10);
      assert s[..|s| - 1] == Digits(n / 10);
    }
  }

  /** The message names the number exactly: reading it back gives the level. */
  lemma DecimalRoundTrip(n: int)
    ensures DecimalValue(Decimal(n)) == n
  {
    if n < 0 {
      DigitsRoundTrip(-n);
      assert Decimal(n)[1..] == Digits(-n);
    } else {
      DigitsRoundTrip(n);
    }
  }

  // ---------------------------------------------------------------------------
  // The lookup
  // ---------------------------------------------------------------------------

  /**
   * `ErrorTypeToStringMap::get($errorType)`: the table's name for a known
   * level, and "Invalid error type <level>" for any other.
   */
  function Get(errorType: int): (r: Result<string, InvalidArgument>)
    ensures r.Success? <==> errorType in ERROR_STRINGS
    ensures r.Success? ==> r.value == ERROR_STRINGS[errorType]
    ensures r.Failure? ==> r.error.message == "Invalid error type " + Decimal(errorType)
  {
    if errorType !in ERROR_STRINGS then Failure(InvalidArgument("Invalid error type " + Decimal(errorType)))
    else Success(ERROR_STRINGS[errorType])
  }

  /** Level 0 and the error levels map to their own names. */
  lemma GetErrorNames()
    ensures Get(0) == Success("EXCEPTION")
    ensures Get(E_ERROR) == Success("E_ERROR") && Get(E_CORE_ERROR) == Success("E_CORE_ERROR")
    ensures Get(E_COMPILE_ERROR) == Success("E_COMPILE_ERROR") && Get(E_USER_ERROR) == Success("E_USER_ERROR")
    ensures Get(E_RECOVERABLE_ERROR) == Success("E_RECOVERABLE_ERROR")
  {
  }

  /** The warning levels map to their own names. */
  lemma GetWarningNames()
    ensures Get(E_WARNING) == Success("E_WARNING") && Get(E_CORE_WARNING) == Success("E_CORE_WARNING")
    ensures Get(E_COMPILE_WARNING) == Success("E_COMPILE_WARNING") && Get(E_USER_WARNING) == Success("E_USER_WARNING")
  {
  }

  /** The parse, notice, strict and deprecation levels map to their own names. */
  lemma GetOtherNames()
    ensures Get(E_PARSE) == Success("E_PARSE") && Get(E_NOTICE) == Success("E_NOTICE")
    ensures Get(E_USER_NOTICE) == Success("E_USER_NOTICE") && Get(E_STRICT) == Success("E_STRICT")
    ensures Get(E_DEPRECATED) == Success("E_DEPRECATED") && Get(E_USER_DEPRECATED) == Success("E_USER_DEPRECATED")
  {
  }

  /** A combined mask is rejected, with the level in the message. */
  lemma GetRejectsMask()
    ensures Get(E_ERROR + E_WARNING) == Failure(InvalidArgument("Invalid error type 3"))
  {
    assert Digits(3) == "3";
    assert "Invalid error type " + "3" == "Invalid error type 3";
  }

  /** A negative level is rejected, with its sign in the message. */
  lemma GetRejectsNegative()
    ensures Get(-1) == Failure(InvalidArgument("Invalid error type -1"))
  {
    assert Digits(1) == "1";
    assert "Invalid error type " + ("-" + "1") == "Invalid error type -1";
  }

  /** `E_ALL` and the bit above `E_USER_DEPRECATED` have no name. */
  lemma GetRejectsOthers()
    ensures Get(32767).Failure? && Get(32768).Failure?
  {
  }

  /** The lookup is injective: different levels have different names. */
  lemma NamesInjective(x: int, y: int)
    requires Get(x).Success? && Get(y).Success? && x != y
    ensures Get(x).value != Get(y).value
  {
  }
}
