# A verified model of the `oh` interpreter core

`oh` is an esoteric language whose lines say which variables they write and
which items they read (`x y = a 3 "text"`), but not which operation to
perform. The interpreter parses each line into destinations, an optional `=`
operator and items. It then searches, depth first and with backtracking, for
a type for every destination and a built-in registered under the resulting
signature, such that the program runs to its end. States already visited are
memoised, and output printed on a branch that fails is erased again.

This project models the core library `src/lib.rs`:

- the value and type model, with `Display` and the text conversions
  (`values.dfy`);
- the variable environment (`environment.dfy`);
- the parser and `fun_ty` (`syntax.dfy`);
- the fifteen built-ins (`builtins.dfy`);
- the registry built by `init_default_functions` (`registry.dfy`);
- the enumeration of type guesses (`tuples.dfy`);
- the runtime: `run`, `run_bt` and `is_state_ok` (`search.dfy`).

`base.dfy` holds `Option`, the `Outcome` of a call that may panic, and the
range of `i64`.

The model follows the source's own shape:

- Pure code (`ty`, `from_string`, `to_string`, `Display`, `fun_ty`, the
  parsers) becomes functions.
- Each built-in becomes a pure function from the environment to an
  `Effect`: the new environment, whether `ok_state` stays set, an optional
  jump target and an optional line of output.
- `Runtime` is a class with the fields of the Rust struct. Its methods
  update those fields in place.
- The backtracking search consists of mutually recursive methods with the
  source's loops:
  - `RunBt` loops over type tuples;
  - `TrySignature` looks up the line's signature;
  - `TryCandidates` loops over shuffled candidates.
- The working copy of the variables is deliberately shared. Candidates of
  one signature, and successive type tuples, see each other's writes, as
  they do in the source.

A panic becomes an explicit `Crash`: an `unwrap` of a missing variable, an
`unreachable!` on a value of the wrong variant, an out-of-range index on
the line's items, an arithmetic overflow, or a bad token.

In these places the code behaves in ways a reader might not expect; the
model follows the code:

- A state is recorded in the memo only when no built-in refused. `is_state_ok`
  short-circuits on `ok_state`, so a refused state is not memoised.
- `jump` accepts a one-based target `t` with `2 <= t <= len + 1`. It moves
  to index `t - 1`, so target 1 (the first line) is refused, and `len + 1`
  ends the program.
- Operations are never named in program text: the search picks them. The
  four arithmetic built-ins share one signature, so `a = 3 1` may add,
  subtract, multiply or divide.
- A line without `=` keeps empty tokens. A blank line, or a double or
  trailing space, on such a line panics (`Syntax.EmptyTokenPanics`).
- `length` is registered, but no parsed line has its signature
  (`Registry.LengthUnreachable`). Input is reachable only through a line
  `x =` whose destination is guessed to be a list (`Registry.InputLine`,
  `Registry.InputOnlyUnderInputKey`).
- `run` seeds `oh` with the type `List` but the value `'🥚'`, a character.

## Model

| member | source | states |
|---|---|---|
| `Values.Value.Ty` | src/lib.rs:444-451 | the tag is Number, Char or List exactly when the value is that variant |
| `Values.AllTypesEnumerates` | src/lib.rs:410-415 | the enumeration lists each of the three types once |
| `Values.FromString` | src/lib.rs:453-455 | a list with one `Char` per character, in order |
| `Values.CharsOf` | src/lib.rs:457-469 | `None` exactly when some element is not a `Char`; otherwise the characters, element by element |
| `Values.ToString` | src/lib.rs:457-469 | the same for a list value |
| `Values.ToStringFromString` | src/lib.rs:453-469 | `to_string(from_string(s)) == Some(s)` |
| `Values.FromStringToString` | src/lib.rs:453-469 | a list that `to_string` accepts is rebuilt exactly by `from_string` |
| `Values.DigitChar` | src/lib.rs:59-62 | a decimal digit character with the right value |
| `Values.DigitsOf` | src/lib.rs:59-62 | a non-empty string of digits without a leading zero, except for zero itself |
| `Values.DecimalText` | src/lib.rs:59-62 | `Display` for `i64`: non-empty, a minus sign exactly for negatives, then digits with no leading zero (`0` alone for zero) |
| `Values.ParseI64` | src/lib.rs:64-72 | `i64::from_str` accepts exactly an optional sign followed by at least one digit whose value fits in `i64`, and yields that value |
| `Values.DigitsRoundTrip` | src/lib.rs:59-72 | the digits of `m` denote `m` |
| `Values.DecimalRoundTrip` | src/lib.rs:59-72 | every `i64` parses back from its decimal text |
| `Values.Suffixed` | src/lib.rs:471-475 | the collected text is at least two characters per element; `SuffixedIsJoin` states its contents, each element followed by `", "` |
| `Values.SuffixedIsJoin` | src/lib.rs:471-475 | that string is the `", "`-join plus one trailing separator |
| `Values.CommaSeparated` | src/lib.rs:471-475 | cutting the last two characters yields exactly the `", "`-join |
| `Values.Render` | src/lib.rs:424-442 | numbers print as decimal text, characters as themselves, an all-character list as its text, any other list bracketed and comma-separated |
| `Values.RenderFromString` | src/lib.rs:424-455 | converted text prints as the text itself |
| `Environment.Variables.SetVal` | src/lib.rs:207-213 | insert or overwrite one value; the types and every other value stay as they were |
| `Environment.Variables.GetVal` | src/lib.rs:215-217 | succeeds exactly for a bound name and yields its value, else panics |
| `Environment.Variables.GetType` | src/lib.rs:359-360 | the recorded type, or a panic for an untyped name |
| `Environment.SetThenGet` | src/lib.rs:207-217 | a written value reads back, and other names are unaffected |
| `Environment.EmptyVariables` | src/lib.rs:200-205 | `Variables::new`: no name is bound, so every value and type lookup panics |
| `Syntax.Split` | src/lib.rs:342-350 | `str::split`: at least one piece, none holding the separator |
| `Syntax.SplitJoin` | src/lib.rs:342-350 | joining the pieces with the separator restores the text |
| `Syntax.SplitSeparatorFree` | src/lib.rs:342-350 | text without the separator is one piece |
| `Syntax.SplitAtSeparator` | src/lib.rs:342-350 | a separator ends the first piece |
| `Syntax.JoinSplit` | src/lib.rs:342-350 | splitting undoes joining separator-free pieces |
| `Syntax.SplitOnce` | src/lib.rs:339 | `None` exactly without a separator; otherwise the text is cut at its first separator |
| `Syntax.SplitOnceAt` | src/lib.rs:339 | the cut falls at the first separator |
| `Syntax.SplitPiecesAvoid` | src/lib.rs:342-350 | a character absent from the text is absent from every piece |
| `Syntax.NonEmpty` | src/lib.rs:341-342 | the filter keeps exactly the non-empty pieces, and all pieces when none is empty |
| `Syntax.NonEmptyAppend` | src/lib.rs:341-342 | filtering distributes over concatenation, so kept pieces keep their order |
| `Syntax.Lines` | src/lib.rs:325 | `str::lines`: no piece holds a newline |
| `Syntax.StripCr` | src/lib.rs:325 | one line is kept or loses one trailing carriage return, and loses it exactly when it ends in one |
| `Syntax.StripCarriageReturns` | src/lib.rs:325 | each piece is kept or loses one trailing carriage return, and loses it exactly when it ends in one |
| `Syntax.JoinSnoc` | src/lib.rs:325 | joining with one more piece appends separator and piece |
| `Syntax.SplitLastEmpty` | src/lib.rs:325 | the last piece is empty exactly when the text is empty or ends with the separator |
| `Syntax.JoinEmptyLast` | src/lib.rs:325 | joining pieces that end in an empty one is joining the rest and adding one separator |
| `Syntax.LinesPieces` | src/lib.rs:325 | the lines are the newline-separated pieces, less a final empty piece |
| `Syntax.LinesJoin` | src/lib.rs:325 | text without carriage returns is its lines joined by newlines, plus a final newline when it had one |
| `Syntax.CrTerminated` | src/lib.rs:325 | each line with a carriage return appended |
| `Syntax.SplitCrlf` | src/lib.rs:325 | CRLF-terminated lines split on newlines into the lines with their carriage returns, then one empty piece |
| `Syntax.CrlfLines` | src/lib.rs:325 | `str::lines` of CRLF-terminated lines gives back exactly those lines |
| `Syntax.PieceInJoin` | src/lib.rs:342 | every character of a piece occurs in the joined text |
| `Syntax.UpToQuote` | src/lib.rs:391 | the prefix before the first double quote |
| `Syntax.ParseItem` | src/lib.rs:382-397 | an empty token panics; an alphabetic first character gives a variable; a digit gives a number literal or a panic; `"` gives the text up to the next quote; `'` gives the next character or a panic; anything else panics |
| `Syntax.ParseItems` | src/lib.rs:342-350 | every token parsed, or a panic exactly when some token panics |
| `Syntax.RightTokens` | src/lib.rs:338-350 | with `=`, the non-empty tokens after the first `=`; without `=`, all tokens, empty ones included |
| `Syntax.ParseLine` | src/lib.rs:338-356 | the operator is present exactly when the text has `=`; destinations are the non-empty tokens before the first `=`, free of spaces and `=`; no destinations without `=`; a panic exactly when an item token panics; the items parsed in order |
| `Syntax.CutAtFirstEquals` | src/lib.rs:339-342 | a line `a=b` with no `=` in `a` takes its destinations from `a` and its items from `b`, and panics exactly when a token of `b` does |
| `Syntax.EmptyTokenPanics` | src/lib.rs:348-349 | a line without `=` holding an empty token panics |
| `Syntax.ParseLines` | src/lib.rs:325 | one parsed line per text line, or a panic exactly when one line panics |
| `Syntax.ParseProgram` | src/lib.rs:323-327 | `Program::parse` succeeds exactly when every line parses, and then holds each text line's parse, in order |
| `Syntax.ItemValue` | src/lib.rs:399-404 | a literal is itself; a variable is its bound value, or a panic when unbound |
| `Syntax.TypesOfNames` | src/lib.rs:359 | the recorded type of each destination, or a panic when one is untyped |
| `Syntax.TypesOfItems` | src/lib.rs:360-365 | each item's type, a literal's own tag or a variable's recorded type |
| `Syntax.FunTy` | src/lib.rs:358-367 | succeeds exactly when every destination and variable item is typed; keeps the operator and arities; types element by element |
| `Builtins.Operand` | src/lib.rs:399-404 | the value of the k-th item, or a panic when the item is missing or the variable unbound |
| `Builtins.ListAt` | src/lib.rs:88 | the k-th operand as a list, or a panic |
| `Builtins.NumberAt` | src/lib.rs:89 | the k-th operand as a number, or a panic |
| `Builtins.Dest` | src/lib.rs:15 | the k-th destination, or a panic |
| `Builtins.TwoNumbers` | src/lib.rs:23-29 | both operands as numbers, or a panic |
| `Builtins.DivisionBounds` | src/lib.rs:46-53 | bounds on natural division used for the quotient's range |
| `Builtins.TruncDiv` | src/lib.rs:46-53 | the remainder is smaller than the divisor and has the dividend's sign; the quotient fits in `i64` except for `MIN / -1` |
| `Builtins.SignedQuotientRemainder` | src/lib.rs:46-53 | division truncating toward zero leaves a remainder with the dividend's sign and smaller than the divisor |
| `Builtins.SignedQuotientRange` | src/lib.rs:46-53 | the quotient is no larger than the dividend, at most half of it for a divisor of 2 or more, and the dividend itself (or its negation) for a divisor of 1 (or -1) |
| `Builtins.InputOp` | src/lib.rs:14-16 | binds the first destination to the external input |
| `Builtins.OutputOp` | src/lib.rs:18-21 | emits the rendering of the operand and changes nothing else |
| `Builtins.ArithOp` | src/lib.rs:31-44 | the exact sum, difference or product when it fits in `i64`; an overflow panics |
| `Builtins.DivOp` | src/lib.rs:46-53 | returns without panicking exactly when both operands are numbers and the call refuses or there is a destination; refuses exactly a zero divisor and `MIN / -1`, leaving the variables alone; otherwise stores the quotient rounded toward zero |
| `Builtins.AssignOp` | src/lib.rs:55-57 | copies the operand into the first destination |
| `Builtins.NumToStrOp` | src/lib.rs:59-62 | stores the decimal text of the number as a list of characters |
| `Builtins.StrToNumOp` | src/lib.rs:64-72 | returns without panicking exactly when the operand is a list and either it is refused or there is a destination; accepts exactly an all-character list whose text is an `i64`, and stores that number; otherwise refuses with the variables unchanged |
| `Builtins.JumpOp` | src/lib.rs:74-85 | accepts exactly a target with `2 <= t <= len + 1` and moves to line `t - 1`; target `MIN` overflows |
| `Builtins.GetOp` | src/lib.rs:87-101 | returns without panicking exactly when the operands are a list and a number and the index is out of range or the destination exists with a guessed type; accepts exactly an in-range index whose element has the destination's guessed type, and stores that element |
| `Builtins.PutOp` | src/lib.rs:103-117 | returns without panicking exactly when the operands are a list, a number and a value and the index is out of range or there is a destination; accepts exactly an in-range index; the stored list equals the old one except at that index, which holds the element |
| `Builtins.PushOp` | src/lib.rs:119-126 | always accepts; the stored list is the old one with the element appended |
| `Builtins.PopOp` | src/lib.rs:128-141 | returns without panicking exactly when the operand is a list that is empty, or the first destination has a guessed type and either the type mismatches or a second destination exists; accepts exactly a non-empty list whose last element has the guessed type; stores that element, then the rest of the list |
| `Builtins.LengthOp` | src/lib.rs:143-147 | stores the number of elements |
| `Builtins.Apply` | src/lib.rs:14-147 | for every built-in: types untouched; a refusal changes nothing; only destinations change; only `output` emits; only `jump` moves, and only within the program; only `div`, `str_to_num`, `jump`, `get`, `put` and `pop` refuse |
| `Builtins.NumToStrThenStrToNum` | src/lib.rs:59-72 | converting a number to text and back yields the number |
| `Builtins.GetOnMistypedOperandPanics` | src/lib.rs:88 | `get` on a non-list operand panics |
| `Builtins.MistypedListOperandPanics` | src/lib.rs:129 | a `Char` read as the list operand panics, and so does `pop` on it, whatever its destinations |
| `Registry.LoopEntriesStep` | src/lib.rs:236-243 | each round of the loop appends that type's six registrations |
| `Registry.FixedEntries` | src/lib.rs:230-235 | the six registrations before the loop; only the arithmetic signature has more than one candidate |
| `Registry.PerTypeEntries` | src/lib.rs:237-242 | six `=` signatures per type, each with one candidate |
| `Registry.LoopEntries` | src/lib.rs:236-243 | six single-candidate registrations per type taken so far |
| `Registry.DefaultEntries` | src/lib.rs:229-243 | the 24 registrations `init_default_functions` makes, in order |
| `Registry.DefaultRegistry` | src/lib.rs:229-243 | the registry holds exactly the registered signatures |
| `Registry.InsertAll` | src/lib.rs:229-244 | every inserted key is present, and no other key appears |
| `Registry.InsertAllSnoc` | src/lib.rs:229-244 | one more insert is one more map update |
| `Registry.InsertAllAppend` | src/lib.rs:229-244 | inserting two runs is inserting their concatenation |
| `Registry.InsertAllStores` | src/lib.rs:229-244 | with distinct keys every entry is stored as registered |
| `Registry.InsertAllKeeps` | src/lib.rs:229-244 | a key no entry names keeps its value |
| `Registry.InsertAllSize` | src/lib.rs:229-244 | distinct new keys add one signature each |
| `Registry.InsertAllDistinct` | src/lib.rs:229-244 | new, distinct keys are stored unchanged, one key per entry |
| `Registry.PerTypeKeysDistinct` | src/lib.rs:237-242 | the per-type signatures differ across rows and types |
| `Registry.EntryAt` | src/lib.rs:229-244 | where each of the 24 registrations comes from |
| `Registry.DefaultKeysDistinct` | src/lib.rs:229-244 | no registration overwrites another |
| `Registry.EntryCandidates` | src/lib.rs:229-244 | only the arithmetic entry has several candidates, and only the first entry holds `input` |
| `Registry.DefaultRegistryLookup` | src/lib.rs:229-244 | each registration is found as registered; there are 24 signatures |
| `Registry.DefaultRegistryShape` | src/lib.rs:229-244 | 24 signatures; `add, sub, mul, div` share one; every other signature has one candidate |
| `Registry.InputOnlyUnderInputKey` | src/lib.rs:230 | `input` is a candidate exactly under `() Equals (List)` |
| `Registry.LengthUnreachable` | src/lib.rs:338-356 | no parsed line has the signature of `length` |
| `Registry.InputLine` | src/lib.rs:338-367 | `x =` parses to one destination and no items, and with `x` a list has the signature of `input` |
| `Tuples.Permuted` | src/lib.rs:268 | a shuffled sequence lists the elements in the order the permutation picks |
| `Tuples.PermutedSameElements` | src/lib.rs:268 | a shuffle keeps exactly the same elements |
| `Tuples.PermutedDistinct` | src/lib.rs:268 | a shuffle of a repetition-free sequence repeats nothing |
| `Tuples.Prefix` | src/lib.rs:269 | a head prepended to every tail |
| `Tuples.Spread` | src/lib.rs:269 | every produced tuple is a head followed by a tail |
| `Tuples.TypeTuples` | src/lib.rs:269 | the `multi_cartesian_product` enumeration: every tuple has one type per destination, and there is at least one tuple when there are types |
| `Tuples.SpreadLength` | src/lib.rs:269 | one tuple per head and tail |
| `Tuples.SpreadMembers` | src/lib.rs:269 | a tuple is listed exactly when it is a head followed by a tail |
| `Tuples.SpreadDistinct` | src/lib.rs:269 | distinct heads and tails give distinct tuples |
| `Tuples.TypeTuplesCount` | src/lib.rs:269 | `|order|^n` tuples |
| `Tuples.TypeTuplesMembers` | src/lib.rs:269 | exactly the length-`n` sequences over the ordering are listed |
| `Tuples.TypeTuplesDistinct` | src/lib.rs:269 | no tuple is listed twice |
| `Tuples.ShuffledTypes` | src/lib.rs:267-268 | the shuffled type alphabet holds each type once |
| `Tuples.EveryTupleOnce` | src/lib.rs:267-269 | whatever the shuffle, all `3^n` tuples of types are tried, each exactly once |
| `Tuples.GuessTypes` | src/lib.rs:270-272 | the guesses add the destinations to the type map and leave other names alone |
| `Tuples.GuessTypesLastWins` | src/lib.rs:270-272 | a destination that no later destination repeats reads back its own guess, so with a repeated name the last guess stays |
| `Tuples.GuessTypesReadBack` | src/lib.rs:270-272 | with distinct destinations, each reads back its own guess |
| `Search.Runtime.WriteGuesses` | src/lib.rs:270-272 | the loop writes the guesses into the type map as `GuessTypes` does, leaving values unchanged |
| `Search.MemoCheck` | src/lib.rs:311-315 | a state passes exactly when no built-in refused and it is new; it is recorded only when no built-in refused |
| `Search.SeedVariables` | src/lib.rs:247-251 | `oh` holds the egg character but is recorded as a list, and no other name is bound |
| `Search.MemoAcceptsOnce` | src/lib.rs:311-315 | an accepted state is recorded and never passes again |
| `Search.RefusedNotMemoised` | src/lib.rs:311-315 | a refused state is not recorded and can pass later |
| `Search.GuessedTypesReadOnRight` | src/lib.rs:270-274 | after guessing, the destinations carry the guessed types, and an item naming a destination is typed with its guess |
| `Search.Runtime.constructor` | src/lib.rs:225-227 | an empty registry and memo, the flag set |
| `Search.Runtime.Register` | src/lib.rs:229-244 | a run of inserts, as `InsertAll` |
| `Search.Runtime.InitDefaultFunctions` | src/lib.rs:229-244 | the registry becomes the 24 default registrations inserted in order |
| `Search.Runtime.Emit` | src/lib.rs:174 | one more line is shown |
| `Search.Runtime.Retract` | src/lib.rs:286-288 | the last line shown is erased |
| `Search.Runtime.NextShuffle` | src/lib.rs:268 | the next shuffle is a permutation of the indices |
| `Search.Runtime.IsStateOk` | src/lib.rs:311-315 | the memo check on the runtime's fields, and the flag is restored |
| `Search.Runtime.Invoke` | src/lib.rs:281-282 | the built-in's effect applied: flag cleared on refusal, next line moved on a jump, output shown and flagged as fresh |
| `Search.Runtime.Run` | src/lib.rs:246-257 | a failed search ends with the failure banner, a successful one with `.`, and the empty program succeeds at once |
| `Search.Runtime.RunBt` | src/lib.rs:259-309 | at the end of the program, success with nothing changed; a failed search leaves the output as it found it and the flag set; the memo only grows |
| `Search.Runtime.TrySignature` | src/lib.rs:273-274 | an untyped variable panics; an unregistered signature fails with nothing changed |
| `Search.Runtime.TryCandidates` | src/lib.rs:275-289 | tries the candidates in the order the shuffle oracle returns (no contract states that order); output of a failed candidate is erased, so a failure leaves the output unchanged |

## Left out

- The binary (`src/main.rs`) and the browser front end are not part of this model. They hold file and console I/O and the JavaScript output handler.
- The output handler's closures are modelled as a transcript of displayed lines: `new_output` appends one line and `revert_output` erases the last one. The ANSI escape sequences are not modelled. The real handlers are not always that balanced: the browser handler trims trailing whitespace before erasing, so undoing a blank output also removes the line before it, and on a terminal undoing a multi-line output erases only its last row.
- Search.Runtime.Retract: it requires a displayed line. In the source, erasing with nothing shown would clear the line above on a terminal (the ANSI cursor-up and clear-line sequence) and does nothing to an empty browser transcript; the search only erases after a line was shown.
- Random shuffles are a parameter of the runtime: a function giving the `t`-th order for `n` elements, assumed to be a permutation. Which permutation `thread_rng` picks is not modelled.
- Search.Runtime.RunBt: the model bounds the recursion depth by a fuel parameter and answers `OutOfFuel` when it runs out. The source recurses without bound and can overflow the stack.
- Search.Runtime.RunBt: no contract states that a success is returned without trying the remaining candidates; only the code's `return` does.
- Arithmetic overflow in `add`, `sub`, `mul` and in `jump`'s `target - 1` is modelled as a panic, as a debug build behaves. Release-build wrap-around is not modelled.
- `char::is_alphabetic` is a parameter of the parser. Unicode's alphabetic property is not modelled; digit classification is ASCII, as `is_digit(10)` is.
- `Variables::get_mut_val` is never called by the core and is not modelled.
- Variables are a value type here (the Rust struct is `Clone`, `Eq` and `Hash`, and it is stored in the memo). The in-place updates of the working copy are reassignments of a local variable in the search methods.
- `comma_seperated` truncates a byte string. The model cuts two characters, which is the same because `", "` is ASCII.
- Builtins.LengthOp: a list longer than `i64::MAX` panics in the model. No real vector is that long.
- Builtins.GetOp: the index is converted with `as usize`, and the model assumes a 64-bit `usize`. On a 32-bit target such as the WebAssembly build, the cast keeps only the low 32 bits, so an index of 2^32 or more would select a list element; the model refuses it.
- Builtins.PutOp: the same 64-bit `usize` assumption as `get`. On a 32-bit target, an index of 2^32 or more would overwrite an element; the model refuses it. (`jump` casts only after its range check, so it is unaffected.)
- Syntax.Lines: follows the current `str::lines`, which strips a carriage return only before a newline. Older Rust releases also stripped a lone carriage return at the end of the last line; that behaviour is not modelled.
