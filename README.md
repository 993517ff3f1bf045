# migrate-it: next migration number, in Dafny

`migrate-it` is a small Node.js tool (`index.mjs`). It lists a migration
directory, sorts the entry names, and reads the number before the first `-`
in the name that sorts last. It then derives the next number, zero-padded to
three characters, and creates a directory with that name. This project models:

- `sortMigrations` (index.mjs:35-37). The caller's array is sorted in place.
  `Sorting.SortMigrations` is an insertion sort on an `array<string>` that
  changes its argument, and it is proved to leave the array sorted and a
  permutation of what it held. Under this order, sorted permutations are
  unique (lemma `Sorting.SortedPermutationUnique`), so with it any correct
  sort leaves the same order, whatever its algorithm.
- `getNextMigration` (index.mjs:45-58), with the directory listing as a
  parameter. `Migrate.Next` is the derivation as a function:
  - an empty listing gives "001";
  - otherwise it reads the name that sorts last (`Sorting.MaxName`);
  - it takes `split("-")[0]`, then `parseInt`;
  - `NaN` raises "Last migration is not a number";
  - otherwise it gives `(N + 1).toString().padStart(3, "0")`.
  `Migrate.GetNextMigration` follows the code path: it sorts an array and
  reads its last element. It is proved equal to `Next`.
- The JavaScript built-ins this relies on (module `Js`):
  - `String.prototype.split` (first field only);
  - `parseInt` with no radix: leading white space, one optional sign, the
    `0x`/`0X` prefix, the longest digit prefix, and `NaN` when no digit follows;
  - `Number.prototype.toString` on integers;
  - `String.prototype.padStart`.
- `createMigration` (index.mjs:66-76): `Migrate.CreateMigration` maps the
  outcome of `fs.mkdir`, given as a parameter, to the error it throws.
  `Migrate.Mkdir` models that outcome for a directory holding a set of names:
  `EEXIST` exactly when the name is already there.

Properties proved:

- An empty directory gives "001".
- Only the text before the first `-` is read.
- A last entry that opens with anything but a digit, white space or `+`
  fails with the source's message. This covers "abc-foo", and "-x", whose
  first field is empty. (White space and one `+` are skipped by `parseInt`,
  so " 5-x" and "+5-x" both read 5.)
- On success the name is zeros followed by the decimal digits of `N + 1`. Its
  length is `max(3, digits)`, so it is never truncated. It holds no `-`, and
  `parseInt` reads it back as `N + 1`.
- Leading zeros are decimal: "007-x" gives "008".
- Digits after a non-digit are ignored: "12a-x" gives "013".
- "999-x" gives "1000".
- Under the model's order, the result depends only on which entries there
  are, not on the order of the listing.
- Names count up as long as each new name sorts last.
- Creating a migration fails with "Migration <name> already exists" exactly
  when an entry of that name is in the directory, and a derived name that
  sorts after every entry is always new.
- Order is by string, not by number:
  - ["9-a", "10-b"] gives "010";
  - once "1000" sits beside "999-x", "1000" is derived again, and creating
    it then fails with "Migration 1000 already exists".

The code calls `parseInt` without a radix, so the first field is read in
base 10 unless it opens with `0x` or `0X`, and then in base 16 ("0x1f-a"
gives "032"). The model follows ECMAScript's `parseInt` here.

Files:

- `wrappers.dfy`: Option and Result.
- `lex.dfy`: the order on names.
- `sorting.dfy`: the sort and the maximum.
- `js.dfy`: the built-ins.
- `migrate.dfy`: the derivation, `mkdir` and the `createMigration` error mapping.
- `scenarios.dfy`: concrete listings.

## Model

| member | source | states |
|---|---|---|
| `Lex.LessEqReflexive` | index.mjs:36 | Every name compares no later than itself. |
| `Lex.LessEqTotal` | index.mjs:36 | Any two names are comparable, one way or the other. |
| `Lex.LessEqAntisymmetric` | index.mjs:36 | Two names that each sort no later than the other are equal, so the comparator has no ties between distinct names. |
| `Lex.LessEqTransitive` | index.mjs:36 | The order is transitive. |
| `Sorting.AdjacentSortedIsSorted` | index.mjs:35-37 | If each name sorts no later than its right neighbour, every name sorts no later than every later name. |
| `Sorting.SortMigrations` | index.mjs:35-37 | After the in-place sort the array is sorted ascending, and it holds the same names with the same multiplicities as before. |
| `Sorting.InsertLeft` | index.mjs:36 | One insertion step: `a[..i + 1]` ends sorted neighbour by neighbour and is a permutation of what it held, `a[i + 1..]` is unchanged, and so the whole array keeps its multiset. |
| `Sorting.InsertStep` | index.mjs:36 | Exchanging the moving name with its left neighbour, when they are out of order, keeps the insertion invariant one place further left and leaves the tail after `i` alone. |
| `Sorting.InsertDone` | index.mjs:36 | When the moving name has reached the front or a neighbour no later than it, the prefix up to `i` is sorted neighbour by neighbour. |
| `Sorting.PrefixPermutation` | index.mjs:36 | Two permutations that agree from index `n` on are permutations of each other before `n`. |
| `Sorting.Swap` | index.mjs:36 | Exchanging two elements changes exactly those two and keeps the multiset. |
| `Sorting.MaxNameAppend` | index.mjs:50-51 | A name appended after the current maximum, or to no names, becomes the maximum. |
| `Sorting.MaxNameIsMaximum` | index.mjs:50-51 | `MaxName` is one of the names, and every name sorts no later than it. |
| `Sorting.SortedLastIsMaxName` | index.mjs:50-51 | The last element of any sorted permutation of the listing is `MaxName` of the listing, so "last after sorting" does not depend on the sort algorithm. |
| `Sorting.MaxNameOfPermutation` | index.mjs:50-51 | Listings with the same multiset of names have the same maximum. |
| `Sorting.SortedDropLast` | index.mjs:35-37 | Dropping the last element keeps a sequence sorted. |
| `Sorting.MultisetDropLast` | index.mjs:35-37 | Two permutations that end in the same name are still permutations with it removed. |
| `Sorting.SortedPermutationUnique` | index.mjs:35-37 | Two sorted sequences with the same multiset are equal, so every correct sort leaves one and the same order. |
| `Js.BeforeFirst` | index.mjs:52 | `split("-")[0]`: a prefix of the name with no `-` in it, ending at the end of the name or at its first `-`. |
| `Js.TrimStart` | index.mjs:52 | What `parseInt` skips first: a suffix of its input; everything dropped is ECMAScript white space, and what remains does not open with white space. |
| `Js.DigitValue` | index.mjs:52 | A digit's value is below 16, and below 10 exactly for `0`-`9`. |
| `Js.LeadingDigits` | index.mjs:52 | The longest prefix made only of digits of the radix: every character is such a digit, and the next one is not. |
| `Js.DecimalDigit` | index.mjs:57 | The character written for a decimal digit is a decimal digit with that value. |
| `Js.NatToDecimal` | index.mjs:56-57 | `toString()` of a natural: a non-empty run of decimal digits, with no leading zero unless it is "0", that denotes the number. |
| `Js.PadStart` | index.mjs:57 | `padStart(3, "0")`: the length is the larger of the width and the input's length (never truncates), the input ends the result, and only the fill character precedes it. |
| `Js.LeadingZerosValue` | index.mjs:52 | Leading zeros do not change the value of a numeral, so "007" is 7. |
| `Js.AllZerosValue` | index.mjs:52 | A run of zeros denotes 0. |
| `Js.ParseIntUnsigned` | index.mjs:52 | A field opening with neither white space nor a sign is read by the magnitude rule alone. |
| `Js.ParseIntFromDigit` | index.mjs:52 | A field opening with a decimal digit, but not with `0x`, reads as the value of its leading decimal digits. |
| `Js.ParseIntOfDecimalDigits` | index.mjs:52 | A non-empty run of decimal digits has no `-` and reads back as its decimal value. |
| `Js.ParseIntNoMinus` | index.mjs:52-53 | A field with no `-` in it yields `NaN` or a number of at least zero; this holds for every `split("-")[0]`. |
| `Js.ParseIntStopsAtNonDigit` | index.mjs:52 | Digits followed by a non-digit and anything else read as the digits alone, except that a lone `0` before `x`/`X` opens base 16. |
| `Js.NoHexPrefix` | index.mjs:52 | Digits followed by any character, other than "0" then `x`/`X`, do not open with a hex prefix. |
| `Js.LeadingDigitsOfPrefix` | index.mjs:52 | Decimal digits followed by nothing or a non-digit are exactly the leading digits. |
| `Migrate.GetNextMigration` | index.mjs:45-58 | Sorting an array copy of the listing and deriving from its last element gives exactly `Next` of the listing. |
| `Migrate.PaddedNumeralParses` | index.mjs:56-57 | A zero-padded numeral holds only digits, no `-`, and `parseInt` reads it back as its number. |
| `Migrate.FromLastFails` | index.mjs:52-55 | The derivation fails exactly when `parseInt` of the first field is `NaN`, and its error message is then "Last migration is not a number". |
| `Migrate.FromLastSucceeds` | index.mjs:52-57 | On success the number read is at least zero, and the name is `N + 1` in decimal, padded with `0` on the left to at least three characters. |
| `Migrate.FromFieldOutcome` | index.mjs:52-57 | For a first field with no `-`: failure exactly on `NaN` with the source's message, otherwise a padded numeral of `N + 1` with `N >= 0`. |
| `Migrate.SuccessorName` | index.mjs:56-57 | For `N >= 0`, the name written is the padded numeral of `N + 1`, and `parseInt` reads it back as `N + 1`. |
| `Migrate.FromLastOfNumber` | index.mjs:52-57 | Once the first field is known and `parseInt` reads `N` from it, the derivation returns the padded `N + 1`. |
| `Migrate.NextOfOne` | index.mjs:45-58 | A listing of one entry derives from that entry. |
| `Migrate.FromLastOfEntry` | index.mjs:51-57 | An entry `first-rest` whose `first` part reads as `N >= 0` leads to the padded decimal of `N + 1`. |
| `Migrate.NextOfEmpty` | index.mjs:47-49 | An empty directory yields "001" and no error. |
| `Migrate.NextIgnoresOrder` | index.mjs:45-58 | Listings with the same entries, in any order, give the same result. |
| `Migrate.BeforeHyphenOf` | index.mjs:52 | For text `a` with no `-`, the first field of `a` and of `a-rest` is `a`. |
| `Migrate.FromLastReadsFirstField` | index.mjs:52 | Text after the first `-` is never read: `a-rest` derives what `a` alone derives, which succeeds exactly when `parseInt(a)` is a number. |
| `Migrate.FromLastFailsWithoutDigit` | index.mjs:52-54 | A last entry opening with anything but a digit, white space or `+` fails with "Last migration is not a number", including every entry opening with `-`. |
| `Migrate.FirstNameIsSuccessorOfZero` | index.mjs:48 | "001" is what the number rendering writes for 1. |
| `Migrate.FirstNameIsPadded` | index.mjs:48 | "001" is the padded numeral of 1. |
| `Migrate.FromLastIsPadded` | index.mjs:52-57 | A successfully derived name holds no `-` and reads back as a number of at least 1. |
| `Migrate.NextIsPaddedNumeral` | index.mjs:45-58 | Every derived name, "001" included, holds no `-` and `parseInt` reads it as at least 1. |
| `Migrate.NextCountsUp` | index.mjs:45-58 | If the derived name sorts no earlier than every existing entry, adding it to the directory makes the next derivation return its number plus one, padded. |
| `Migrate.CreateMigration` | index.mjs:66-76 | Success exactly when `mkdir` succeeds; `EEXIST` becomes "Migration <name> already exists"; any other failure is rethrown unchanged. |
| `Migrate.Mkdir` | index.mjs:69 | `fs.mkdir` in a directory holding `existing`: it creates the name exactly when the name is not there, and it fails only with `EEXIST`. |
| `Migrate.CreateMigrationIn` | index.mjs:66-76 | In the directory `entries` lists, creating `name` succeeds exactly when `name` is not an entry; otherwise the error is "Migration <name> already exists", not the raw `EEXIST`. |
| `Migrate.CreateAfterNextSucceeds` | index.mjs:66-76 | A derived name that sorts strictly after every entry (or any name in an empty directory) is created without error. |
| `Scenarios.LeadingZerosAreDecimal` | index.mjs:52-57 | ["007-x"] yields "008": leading zeros are read in base 10. |
| `Scenarios.DigitsAfterNonDigitIgnored` | index.mjs:52-57 | ["12a-x"] yields "013": reading stops at the first non-digit. |
| `Scenarios.PaddingNeverTruncates` | index.mjs:56-57 | ["999-x"] yields "1000". |
| `Scenarios.HexPrefixIsBase16` | index.mjs:52-57 | ["0x1f-a"] yields "032": `parseInt` without a radix reads `0x` as base 16. |
| `Scenarios.NonNumericEntriesFail` | index.mjs:52-54 | ["abc-foo"] and ["-x"] both fail with "Last migration is not a number". |
| `Scenarios.StringOrderNotNumeric` | index.mjs:36-57 | ["9-a", "10-b"] yields "010", because "9-a" sorts after "10-b". |
| `Scenarios.WidthRolloverRepeats` | index.mjs:36-57 | ["999-x", "1000"] yields "1000" again, so the sequence stalls at four digits. |
| `Scenarios.WidthRolloverCollides` | index.mjs:66-76 | In that directory, creating "1000" fails with "Migration 1000 already exists". |

## Left out

- Reading the command line, the usage message and `process.exit` (index.mjs:5-14) are I/O. `MIGRATION_DIR` is not part of this model.
- `getAllMigrations` and `fs.readdir` (index.mjs:20-27) are I/O: the listing is a parameter. On a read error the source logs the error and goes on with `undefined`, which then throws a `TypeError` at `.length`. That error path is not modelled.
- `fs.mkdir` and the path it is given (index.mjs:67-69) are I/O. `Migrate.CreateMigration` takes the outcome as a parameter. `Migrate.Mkdir` models only the outcome that depends on the names already present (`EEXIST`), not failures such as missing permissions or a missing parent directory, nor the text of Node's own `EEXIST` message.
- `main` and its `console.log` of "LMS: <name>" before the directory is created (index.mjs:83-89) are I/O and sequencing, not modelled.
- `localeCompare` uses ICU collation, which depends on the locale. `Lex.LessEq` is the ordinal order on characters instead, a total order in which a proper prefix comes first and only equal names tie. The two can differ, for example on upper versus lower case and on accented letters. `localeCompare` can also return 0 for distinct names, such as canonically equivalent strings ("\u00E9" and "e\u0301") or names differing only in code points the collation ignores. The stable `Array.prototype.sort` then keeps such names in listing order, so the last entry, and the derived name, can depend on the order `fs.readdir` returns. The model does not capture this.
- `Sorting.SortedPermutationUnique` and `Migrate.NextIgnoresOrder`: these are results about the stand-in order `Lex.LessEq`, which has no ties; they do not hold for `localeCompare` on names it considers equal.
- `Array.prototype.sort`'s own algorithm is not modelled. `Sorting.SortMigrations` is an insertion sort; under `Lex.LessEq`, `Sorting.SortedPermutationUnique` shows that any correct sort gives the same array.
- `Migrate.GetNextMigration`: the source sorts the caller's array in place. The model sorts a fresh copy, so the caller's listing is left unchanged and aliasing is not captured.
- JavaScript numbers are doubles. The model uses unbounded integers, so it leaves out precision loss above 2^53 and exponent notation in `toString` above 10^21. `parseInt("-0")` gives `-0` in JavaScript and 0 here; a first field never holds a `-`, so this cannot occur.
- `Migrate.FromLastSucceeds`: `parseInt` reading the name back as `N + 1` is a separate lemma (`Migrate.PaddedNumeralParses`, `Migrate.FromLastIsPadded`), not part of this lemma's contract.
