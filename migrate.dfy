/**
  `getNextMigration` with the directory listing given as a parameter, and the
  error mapping of `createMigration`.
 */
module Migrate {
  import opened Wrappers
  import Lex
  import Sorting
  import Js

  /** A thrown JavaScript `Error`, known by its message. */
  datatype Error = Error(message: string)

  const NotANumber := "Last migration is not a number"

  /** The name of the first migration, used when the directory is empty. */
  const FirstName := "001"

  /**
    The derivation from the last entry after sorting: `parseInt` of the text
    before the first `-`, then one more, as a decimal string padded with `0`
    to at least three characters.
   */
  function FromLast(last: string): Result<string, Error>
  {
    FromField(Js.BeforeFirst(last, '-'))
  }

  /** The derivation from the first field of the last entry. */
  function FromField(field: string): Result<string, Error>
  {
    var n := Js.ParseInt(field);
    if n.None? then Err(Error(NotANumber))
    else Ok(Js.PadStart(Js.IntToString(n.value + 1), 3, '0'))
  }

  /**
    The next migration name for a directory holding `entries`, in whatever
    order they are listed: "001" for none, otherwise the derivation from the
    name that sorts last.
   */
  function Next(entries: seq<string>): Result<string, Error>
  {
    if |entries| == 0 then Ok(FirstName) else FromLast(Sorting.MaxName(entries))
  }

  /** The code path itself: test for emptiness, sort a copy in place, read its last element. */
  method GetNextMigration(entries: seq<string>) returns (r: Result<string, Error>)
    ensures r == Next(entries)
  {
    if |entries| == 0 {
      return Ok(FirstName);
    }
    var files := new string[|entries|](i requires 0 <= i < |entries| => entries[i]);
    assert files[..] == entries;
    Sorting.SortMigrations(files);
    Sorting.SortedLastIsMaxName(files[..], entries);
    r := FromLast(files[files.Length - 1]);
  }

  /** `name` is `m` in decimal, left-padded with `0` to at least three characters. */
  ghost predicate PaddedNumeral(name: string, m: nat)
  {
    var d := Js.NatToDecimal(m);
    && |name| == (if |d| < 3 then 3 else |d|)
    && name[|name| - |d|..] == d
    && forall k :: 0 <= k < |name| - |d| ==> name[k] == '0'
  }

  /** A padded numeral holds only digits, and `parseInt` reads it back as its number. */
  lemma PaddedNumeralParses(name: string, m: nat)
    requires PaddedNumeral(name, m)
    ensures Js.AllDigitsIn(name, 10) && '-' !in name
    ensures Js.ParseInt(name) == Some(m)
  {
    var d := Js.NatToDecimal(m);
    var z := |name| - |d|;
    assert name == seq(z, _ => '0') + d;
    Js.LeadingZerosValue(z, d, 10);
    Js.ParseIntOfDecimalDigits(name);
  }

  /**
    The derivation fails exactly when `parseInt` finds no number in the text
    before the first `-`, and then with the message of the source.
   */
  lemma FromLastFails(last: string)
    ensures FromLast(last).Err? <==> Js.ParseInt(Js.BeforeFirst(last, '-')).None?
    ensures FromLast(last).Err? ==> FromLast(last).error.message == NotANumber
  {
  }

  /**
    Otherwise the number read is at least zero, and the result is its
    successor as a padded numeral (which `PaddedNumeralParses` reads back).
   */
  lemma FromLastSucceeds(last: string)
    ensures FromLast(last).Ok? ==>
      var n := Js.ParseInt(Js.BeforeFirst(last, '-')).value;
      n >= 0 && PaddedNumeral(FromLast(last).value, n + 1)
  {
    var seg := Js.BeforeFirst(last, '-');
    FromFieldOutcome(seg);
    if Js.ParseInt(seg).Some? {
      var name := FromField(seg).value;
      assert FromLast(last) == Ok(name);
      assert PaddedNumeral(name, Js.ParseInt(seg).value + 1);
    }
  }

  /** The outcome of the derivation from a first field, which holds no `-`. */
  lemma FromFieldOutcome(field: string)
    requires '-' !in field
    ensures FromField(field).Err? <==> Js.ParseInt(field).None?
    ensures FromField(field).Err? ==> FromField(field).error.message == NotANumber
    ensures FromField(field).Ok? ==>
      var n := Js.ParseInt(field).value;
      n >= 0 && PaddedNumeral(FromField(field).value, n + 1)
  {
    Js.ParseIntNoMinus(field);
    if Js.ParseInt(field).Some? {
      SuccessorName(Js.ParseInt(field).value);
    }
  }

  /** The name written for a number `n` read off the last entry. */
  lemma SuccessorName(n: int)
    requires n >= 0
    ensures PaddedNumeral(Js.PadStart(Js.IntToString(n + 1), 3, '0'), n + 1)
    ensures Js.ParseInt(Js.PadStart(Js.IntToString(n + 1), 3, '0')) == Some(n + 1)
  {
    var name := Js.PadStart(Js.NatToDecimal(n + 1), 3, '0');
    assert PaddedNumeral(name, n + 1);
    PaddedNumeralParses(name, n + 1);
  }

  /** The derivation once the first field is known to be `field` and `parseInt` reads it as `n`. */
  lemma FromLastOfNumber(last: string, field: string, n: int)
    requires Js.BeforeFirst(last, '-') == field && Js.ParseInt(field) == Some(n)
    ensures FromLast(last) == Ok(Js.PadStart(Js.IntToString(n + 1), 3, '0'))
  {
  }

  /** A directory holding the one entry `entry`, whose first field `parseInt` reads as `n`. */
  lemma NextOfOne(entry: string, field: string, n: int, name: string)
    requires Js.BeforeFirst(entry, '-') == field && Js.ParseInt(field) == Some(n)
    requires Js.PadStart(Js.IntToString(n + 1), 3, '0') == name
    ensures Next([entry]) == Ok(name)
  {
    FromLastOfNumber(entry, field, n);
  }

  /** An entry whose first field `parseInt` reads as `n` leads to `n + 1`, padded. */
  lemma FromLastOfEntry(first: string, rest: string, n: int)
    requires '-' !in first && Js.ParseInt(first) == Some(n) && n >= 0
    ensures FromLast(first + "-" + rest) == Ok(Js.PadStart(Js.NatToDecimal(n + 1), 3, '0'))
  {
    BeforeHyphenOf(first, rest);
    FromLastOfNumber(first + "-" + rest, first, n);
  }

  /** An empty directory yields "001" and no error. */
  lemma NextOfEmpty()
    ensures Next([]) == Ok("001")
  {
  }

  /** The result depends only on which entries there are, not on the order of the listing. */
  lemma NextIgnoresOrder(e1: seq<string>, e2: seq<string>)
    requires multiset(e1) == multiset(e2)
    ensures Next(e1) == Next(e2)
  {
    if |e1| > 0 {
      Sorting.MaxNameOfPermutation(e1, e2);
    } else {
      assert |e2| == |multiset(e2)| == 0;
    }
  }

  lemma {:induction false} BeforeHyphenOf(a: string, rest: string)
    requires '-' !in a
    ensures Js.BeforeFirst(a, '-') == a
    ensures Js.BeforeFirst(a + "-" + rest, '-') == a
  {
    if |a| > 0 {
      BeforeHyphenOf(a[1..], rest);
      assert (a + "-" + rest)[1..] == a[1..] + "-" + rest;
    }
  }

  /**
    Only the text before the first `-` of the last entry matters; an entry
    without a `-` is read whole.
   */
  lemma FromLastReadsFirstField(a: string, rest: string)
    requires '-' !in a
    ensures FromLast(a + "-" + rest) == FromLast(a)
    ensures FromLast(a).Ok? <==> Js.ParseInt(a).Some?
  {
    BeforeHyphenOf(a, rest);
  }

  /**
    An entry that opens with anything other than a digit, white space or `+`
    cannot be read as a number: this covers "abc-foo" and, since the text
    before the first `-` is then empty, any entry that opens with `-`.
   */
  lemma FromLastFailsWithoutDigit(last: string)
    requires |last| > 0 && !Js.IsDigitIn(last[0], 10)
    requires !Js.IsStrWhiteSpace(last[0]) && last[0] != '+'
    ensures FromLast(last) == Err(Error("Last migration is not a number"))
  {
    var seg := Js.BeforeFirst(last, '-');
    if |seg| > 0 {
      assert seg[0] == last[0];
      assert Js.TrimStart(seg) == seg;
    }
  }

  /** "001" is what the derivation writes after a number 0. */
  lemma FirstNameIsSuccessorOfZero()
    ensures FirstName == Js.PadStart(Js.IntToString(0 + 1), 3, '0')
  {
  }

  /** "001" is the padded numeral of one. */
  lemma FirstNameIsPadded()
    ensures PaddedNumeral(FirstName, 1)
  {
    FirstNameIsSuccessorOfZero();
    SuccessorName(0);
  }

  /** A name derived from a last entry holds no `-` and reads back as a number of at least one. */
  lemma FromLastIsPadded(last: string, name: string)
    requires FromLast(last) == Ok(name)
    ensures '-' !in name && Js.ParseInt(name).Some? && Js.ParseInt(name).value >= 1
  {
    FromLastSucceeds(last);
    PaddedNumeralParses(name, Js.ParseInt(Js.BeforeFirst(last, '-')).value + 1);
  }

  /** Whatever name is derived holds no `-` and reads back as a number of at least one. */
  lemma NextIsPaddedNumeral(entries: seq<string>, name: string)
    requires Next(entries) == Ok(name)
    ensures '-' !in name && Js.ParseInt(name).Some? && Js.ParseInt(name).value >= 1
  {
    if |entries| == 0 {
      FirstNameIsPadded();
      PaddedNumeralParses(name, 1);
    } else {
      FromLastIsPadded(Sorting.MaxName(entries), name);
    }
  }

  /**
    Runs count up: when the name just derived sorts no earlier than every
    existing entry, a directory with that name added leads to the number after it.
   */
  lemma NextCountsUp(entries: seq<string>, name: string)
    requires Next(entries) == Ok(name)
    requires |entries| == 0 || Lex.LessEq(Sorting.MaxName(entries), name)
    ensures Js.ParseInt(name).Some? && Js.ParseInt(name).value >= 1
    ensures Next(entries + [name]) == Ok(Js.PadStart(Js.IntToString(Js.ParseInt(name).value + 1), 3, '0'))
  {
    NextIsPaddedNumeral(entries, name);
    Sorting.MaxNameAppend(entries, name);
    BeforeHyphenOf(name, "");
    FromLastOfNumber(name, name, Js.ParseInt(name).value);
  }

  /** The outcome of `fs.mkdir`: done, or failed with an error code and the error thrown. */
  datatype MkdirOutcome = Created | MkdirFailed(code: string, cause: Error)

  /**
    `createMigration`: an `EEXIST` failure becomes an error naming the
    migration; any other failure is rethrown as it is.
   */
  function CreateMigration(name: string, mkdir: MkdirOutcome): (r: Result<(), Error>)
    ensures r.Ok? <==> mkdir.Created?
    ensures mkdir.MkdirFailed? && mkdir.code == "EEXIST" ==>
      r.Err? && r.error.message == "Migration " + name + " already exists"
    ensures mkdir.MkdirFailed? && mkdir.code != "EEXIST" ==> r == Err(mkdir.cause)
  {
    match mkdir
    case Created => Ok(())
    case MkdirFailed(code, cause) =>
      if code == "EEXIST" then Err(Error("Migration " + name + " already exists")) else Err(cause)
  }

  /**
    `fs.mkdir` in a directory that holds the names `existing`: it creates
    `name` unless an entry of that name is there already, and then fails with
    the code `EEXIST`. Failures that depend on the file system itself
    (permissions, a missing parent) are not modelled here; `CreateMigration`
    still takes any outcome.
   */
  function Mkdir(existing: set<string>, name: string): (r: MkdirOutcome)
    ensures r.Created? <==> name !in existing
    ensures r.MkdirFailed? ==> r.code == "EEXIST"
  {
    if name in existing then MkdirFailed("EEXIST", Error("EEXIST: file already exists")) else Created
  }

  /** The names a directory listing holds. */
  function Names(entries: seq<string>): (r: set<string>)
    ensures forall e :: e in r <==> e in entries
  {
    set e | e in entries
  }

  /**
    Creating a migration in the directory listed by `entries` succeeds exactly
    when no entry has that name; otherwise it fails with the error naming the
    migration, not with the raw `EEXIST` error.
   */
  lemma CreateMigrationIn(entries: seq<string>, name: string)
    ensures CreateMigration(name, Mkdir(Names(entries), name)).Ok? <==> name !in entries
    ensures name in entries ==>
      CreateMigration(name, Mkdir(Names(entries), name)) == Err(Error("Migration " + name + " already exists"))
  {
  }

  /**
    A derived name that sorts after every entry is new, so creating it
    succeeds; a collision needs an entry at least as late as the derived name.
   */
  lemma CreateAfterNextSucceeds(entries: seq<string>, name: string)
    requires Next(entries) == Ok(name)
    requires |entries| == 0 || (Lex.LessEq(Sorting.MaxName(entries), name) && Sorting.MaxName(entries) != name)
    ensures CreateMigration(name, Mkdir(Names(entries), name)) == Ok(())
  {
    if name in entries {
      Sorting.MaxNameIsMaximum(entries);
      Lex.LessEqAntisymmetric(name, Sorting.MaxName(entries));
    }
    CreateMigrationIn(entries, name);
  }
}
