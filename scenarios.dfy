/**
  What the built-ins give on the concrete entries of module Scenarios: how
  each one splits on `-`, what `parseInt` reads from it and how the
  successor is padded.
 */
module LiteralFacts {
  import opened Wrappers
  import Js

  lemma Value007()
    ensures Js.AllDigitsIn("007", 10) && Js.DigitsValue("007", 10) == 7
  {
    assert Js.AllDigitsIn("007", 10);
    assert "007"[..2] == "00" && "00"[..1] == "0";
  }

  lemma Parse007()
    ensures Js.ParseInt("007") == Some(7)
  {
    Value007();
    Js.ParseIntOfDecimalDigits("007");
  }

  lemma Split007()
    ensures Js.BeforeFirst("007-x", '-') == "007"
  {
  }

  lemma Value12()
    ensures Js.AllDigitsIn("12", 10) && Js.DigitsValue("12", 10) == 12
  {
    assert Js.AllDigitsIn("12", 10);
    assert "12"[..1] == "1";
  }

  lemma Join12a()
    ensures "12" + ['a'] + "" == "12a" && !Js.IsDigitIn('a', 10)
  {
  }

  lemma Parse12a()
    ensures Js.ParseInt("12a") == Some(12)
  {
    Value12();
    Join12a();
    Js.ParseIntStopsAtNonDigit("12", 'a', "");
  }

  lemma Split12a()
    ensures Js.BeforeFirst("12a-x", '-') == "12a"
  {
  }

  lemma Value999()
    ensures Js.AllDigitsIn("999", 10) && Js.DigitsValue("999", 10) == 999
  {
    assert Js.AllDigitsIn("999", 10);
    assert "999"[..2] == "99" && "99"[..1] == "9";
  }

  lemma Parse999()
    ensures Js.ParseInt("999") == Some(999)
  {
    Value999();
    Js.ParseIntOfDecimalDigits("999");
  }

  lemma Split999()
    ensures Js.BeforeFirst("999-x", '-') == "999"
  {
  }

  lemma Value9()
    ensures Js.AllDigitsIn("9", 10) && Js.DigitsValue("9", 10) == 9
  {
    assert Js.AllDigitsIn("9", 10);
  }

  lemma Parse9()
    ensures Js.ParseInt("9") == Some(9)
  {
    Value9();
    Js.ParseIntOfDecimalDigits("9");
  }

  lemma Split9()
    ensures Js.BeforeFirst("9-a", '-') == "9"
  {
  }

  lemma Digits1f()
    ensures Js.LeadingDigits("1f", 16) == "1f"
    ensures Js.AllDigitsIn("1f", 16) && Js.DigitsValue("1f", 16) == 31
  {
    assert Js.AllDigitsIn("1f", 16);
    assert "1f"[..1] == "1";
  }

  lemma Strip0x1f()
    ensures Js.TrimStart("0x1f") == "0x1f" && "0x1f"[2..] == "1f"
  {
  }

  lemma Parse0x1f()
    ensures Js.ParseInt("0x1f") == Some(31)
  {
    Strip0x1f();
    Digits1f();
  }

  lemma Split0x1f()
    ensures Js.BeforeFirst("0x1f-a", '-') == "0x1f"
  {
  }

  lemma Padded()
    ensures Js.PadStart(Js.IntToString(7 + 1), 3, '0') == "008"
    ensures Js.PadStart(Js.IntToString(12 + 1), 3, '0') == "013"
    ensures Js.PadStart(Js.IntToString(999 + 1), 3, '0') == "1000"
    ensures Js.PadStart(Js.IntToString(9 + 1), 3, '0') == "010"
    ensures Js.PadStart(Js.IntToString(31 + 1), 3, '0') == "032"
  {
  }
}

/** The edge cases of the derivation, worked out on concrete directory listings. */
module Scenarios {
  import opened Wrappers
  import Lex
  import Sorting
  import opened Migrate
  import opened LiteralFacts

  /** Leading zeros are read in base 10: "007-x" gives 7, so the next name is "008". */
  lemma LeadingZerosAreDecimal()
    ensures Next(["007-x"]) == Ok("008")
  {
    Split007();
    Parse007();
    Padded();
    NextOfOne("007-x", "007", 7, "008");
  }

  /** Digits after the first non-digit are ignored: "12a-x" gives 12, so "013". */
  lemma DigitsAfterNonDigitIgnored()
    ensures Next(["12a-x"]) == Ok("013")
  {
    Split12a();
    Parse12a();
    Padded();
    NextOfOne("12a-x", "12a", 12, "013");
  }

  /** Padding never truncates: after "999-x" comes "1000". */
  lemma PaddingNeverTruncates()
    ensures Next(["999-x"]) == Ok("1000")
  {
    Split999();
    Parse999();
    Padded();
    NextOfOne("999-x", "999", 999, "1000");
  }

  /** With no radix given, `parseInt` reads a `0x` prefix as base 16: "0x1f-a" gives 31, so "032". */
  lemma HexPrefixIsBase16()
    ensures Next(["0x1f-a"]) == Ok("032")
  {
    Split0x1f();
    Parse0x1f();
    Padded();
    NextOfOne("0x1f-a", "0x1f", 31, "032");
  }

  /** A last entry with a non-numeric first field fails: "abc-foo", and "-x" whose first field is empty. */
  lemma NonNumericEntriesFail()
    ensures Next(["abc-foo"]) == Err(Error("Last migration is not a number"))
    ensures Next(["-x"]) == Err(Error("Last migration is not a number"))
  {
    FromLastFailsWithoutDigit("abc-foo");
    FromLastFailsWithoutDigit("-x");
  }

  /** "10-b" sorts before "9-a", so "9-a" is read and the result is "010", not "011". */
  lemma StringOrderNotNumeric()
    ensures Next(["9-a", "10-b"]) == Ok("010")
  {
    assert Sorting.MaxName(["9-a", "10-b"]) == "9-a" by {
      assert !Lex.LessEq("9-a", "10-b");
    }
    Split9();
    Parse9();
    Padded();
    FromLastOfNumber("9-a", "9", 9);
  }

  /**
    String order is not numeric order: once "1000" exists beside "999-x", the
    name that sorts last is still "999-x", so the same name "1000" is derived
    again and `createMigration` would then meet `EEXIST`.
   */
  lemma WidthRolloverRepeats()
    ensures Next(["999-x", "1000"]) == Ok("1000")
  {
    assert Sorting.MaxName(["999-x", "1000"]) == "999-x" by {
      assert !Lex.LessEq("999-x", "1000");
    }
    Split999();
    Parse999();
    Padded();
    FromLastOfNumber("999-x", "999", 999);
  }

  /** ... and creating that name then fails, because "1000" is there already. */
  lemma WidthRolloverCollides()
    ensures CreateMigration("1000", Mkdir(Names(["999-x", "1000"]), "1000"))
      == Err(Error("Migration " + "1000" + " already exists"))
  {
    CreateMigrationIn(["999-x", "1000"], "1000");
  }
}
