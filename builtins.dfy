/** The native operations. Each reads its operands from the right-hand items,
    writes its results to the left-hand names and may refuse (clear the
    runtime's `ok_state`), move the next-line pointer or emit one line of
    output. A call is a function from the environment to an `Effect`; the
    runtime applies the effect to its own fields. */
module Builtins {
  import opened Base
  import opened Values
  import opened Environment
  import opened Syntax

  /** The candidates a registry entry can hold, one per native function. */
  datatype Builtin =
    | Input | Output | Add | Sub | Mul | Div | Assign | NumToStr | StrToNum
    | Jump | Get | Put | Push | Pop | Length

  /** What one call did: the new environment, whether `ok_state` stays set,
      the line to jump to (if `next_line` was set) and the text emitted (if
      any). */
  datatype Effect = Effect(vars: Variables, ok: bool, jumpTo: Option<nat>, emitted: Option<string>)

  function Accepted(vars: Variables): Effect {
    Effect(vars, true, None, None)
  }

  function Refused(vars: Variables): Effect {
    Effect(vars, false, None, None)
  }

  // ---------------------------------------------------------------------
  // Operand access; a missing slot or a value of the wrong variant panics.

  function Operand(vars: Variables, line: Line, k: nat): (r: Outcome<Value>)
    ensures r.Done? <==> k < |line.right| && ItemValue(line.right[k], vars).Done?
    ensures r.Done? ==> r.value == ItemValue(line.right[k], vars).value
  {
    if k < |line.right| then ItemValue(line.right[k], vars) else Crash("index out of bounds")
  }

  function ListAt(vars: Variables, line: Line, k: nat): (r: Outcome<seq<Value>>)
    ensures r.Done? <==> Operand(vars, line, k).Done? && Operand(vars, line, k).value.List?
    ensures r.Done? ==> Operand(vars, line, k).value == Value.List(r.value)
  {
    var v :- Operand(vars, line, k);
    if v.List? then Done(v.elems) else Crash("internal error: entered unreachable code")
  }

  function NumberAt(vars: Variables, line: Line, k: nat): (r: Outcome<Int64>)
    ensures r.Done? <==> Operand(vars, line, k).Done? && Operand(vars, line, k).value.Number?
    ensures r.Done? ==> Operand(vars, line, k).value == Value.Number(r.value)
  {
    var v :- Operand(vars, line, k);
    if v.Number? then Done(v.n) else Crash("internal error: entered unreachable code")
  }

  function Dest(line: Line, k: nat): (r: Outcome<Name>)
    ensures r.Done? <==> k < |line.left|
    ensures r.Done? ==> r.value == line.left[k]
  {
    if k < |line.left| then Done(line.left[k]) else Crash("index out of bounds")
  }

  /** `get_2_nums`: both operands must be numbers. */
  function TwoNumbers(vars: Variables, line: Line): (r: Outcome<(Int64, Int64)>)
    ensures r.Done? <==> NumberAt(vars, line, 0).Done? && NumberAt(vars, line, 1).Done?
    ensures r.Done? ==> r.value == (NumberAt(vars, line, 0).value, NumberAt(vars, line, 1).value)
  {
    var v0 :- Operand(vars, line, 0);
    var v1 :- Operand(vars, line, 1);
    if v0.Number? && v1.Number? then Done((v0.n, v1.n)) else Crash("These weren't two numbers!")
  }

  // ---------------------------------------------------------------------
  // Integer arithmetic

  function Abs(x: int): nat {
    if x < 0 then -x else x
  }

  lemma DivisionBounds(x: nat, y: nat)
    requires y >= 1
    ensures x / y <= x
    ensures y >= 2 ==> 2 * (x / y) <= x
    ensures (x / y) * y <= x < (x / y) * y + y
  {
    var q := x / y;
    assert x == q * y + x % y;
    assert q * y == q * (y - 1) + q;
    assert q * (y - 1) >= 0;
    if y >= 2 {
      assert q * y == q * (y - 2) + 2 * q;
      assert q * (y - 2) >= 0;
    }
  }

  /** The quotient of `|a|` by `|b|`, signed as the operands' signs say. */
  function SignedQuotient(a: int, b: int): int
    requires b != 0
  {
    var m := Abs(a) / Abs(b);
    if (a < 0) != (b < 0) then -m else m
  }

  /** The remainder of the signed quotient is below the divisor in magnitude
      and has the sign of the dividend. */
  lemma SignedQuotientRemainder(a: int, b: int)
    requires b != 0
    ensures var p := (Abs(a) / Abs(b)) * Abs(b);
            p <= Abs(a) < p + Abs(b) &&
            a - SignedQuotient(a, b) * b == (if a < 0 then p - Abs(a) else Abs(a) - p)
  {
    DivisionBounds(Abs(a), Abs(b));
    var x: int, y: int := Abs(a), Abs(b);
    var m: int := x / y;
    var q := SignedQuotient(a, b);
    if b < 0 {
      assert y == -b;
      if a < 0 {
        assert q == m;
        assert q * b == -(m * y);
      } else {
        assert q == -m;
        assert q * b == m * y;
      }
    } else {
      assert y == b;
      if a < 0 {
        assert q == -m;
        assert q * b == -(m * y);
      } else {
        assert q == m;
      }
    }
  }

  /** The signed quotient is at most `|a|` in magnitude, and half of it when
      `|b| >= 2`. */
  lemma SignedQuotientRange(a: int, b: int)
    requires b != 0
    ensures Abs(SignedQuotient(a, b)) <= Abs(a)
    ensures Abs(b) >= 2 ==> 2 * Abs(SignedQuotient(a, b)) <= Abs(a)
    ensures Abs(b) == 1 ==> SignedQuotient(a, b) == (if b < 0 then -a else a)
  {
    DivisionBounds(Abs(a), Abs(b));
  }

  /** Division rounding toward zero, as Rust's `i64` division does: the
      remainder is smaller than the divisor and takes the sign of the
      dividend. */
  function TruncDiv(a: int, b: int): (q: int)
    requires b != 0
    ensures Abs(a - q * b) < Abs(b)
    ensures a - q * b == 0 || (a - q * b < 0 <==> a < 0)
    ensures InI64(a) && InI64(b) && !(a == MinI64 && b == -1) ==> InI64(q)
  {
    SignedQuotientRemainder(a, b);
    SignedQuotientRange(a, b);
    SignedQuotient(a, b)
  }

  function Combine(f: Builtin, a: int, b: int): int
    requires f == Add || f == Sub || f == Mul
  {
    match f
    case Add => a + b
    case Sub => a - b
    case Mul => a * b
  }

  // ---------------------------------------------------------------------
  // The built-ins

  /** `input`: bind the first destination to the external input. */
  function InputOp(input: Value, vars: Variables, line: Line): (r: Outcome<Effect>)
    ensures r.Done? <==> |line.left| > 0
    ensures r.Done? ==> r.value == Accepted(vars.SetVal(line.left[0], input))
  {
    var dest :- Dest(line, 0);
    Done(Accepted(vars.SetVal(dest, input)))
  }

  /** `output`: emit the rendering of the first operand; the environment is
      untouched. */
  function OutputOp(vars: Variables, line: Line): (r: Outcome<Effect>)
    ensures r.Done? <==> Operand(vars, line, 0).Done?
    ensures r.Done? ==> r.value == Effect(vars, true, None, Some(Render(Operand(vars, line, 0).value)))
  {
    var v :- Operand(vars, line, 0);
    Done(Effect(vars, true, None, Some(Render(v))))
  }

  /** `add`, `sub`, `mul`: the exact result, which must fit in 64 bits (an
      overflow panics). */
  function ArithOp(f: Builtin, vars: Variables, line: Line): (r: Outcome<Effect>)
    requires f == Add || f == Sub || f == Mul
    ensures r.Done? <==> TwoNumbers(vars, line).Done? && |line.left| > 0 &&
                         InI64(Combine(f, TwoNumbers(vars, line).value.0, TwoNumbers(vars, line).value.1))
    ensures r.Done? ==> r.value == Accepted(vars.SetVal(line.left[0],
                          Value.Number(Combine(f, TwoNumbers(vars, line).value.0, TwoNumbers(vars, line).value.1))))
  {
    var (a, b) :- TwoNumbers(vars, line);
    var dest :- Dest(line, 0);
    var x := Combine(f, a, b);
    if InI64(x) then Done(Accepted(vars.SetVal(dest, Value.Number(x)))) else Crash("attempt to compute with overflow")
  }

  /** `div`: refuses a zero divisor and the one overflowing quotient;
      otherwise the first destination holds the quotient rounded toward
      zero. */
  function DivOp(vars: Variables, line: Line): (r: Outcome<Effect>)
    ensures r.Done? <==>
              && TwoNumbers(vars, line).Done?
              && var (a, b) := TwoNumbers(vars, line).value;
                 b == 0 || (a == MinI64 && b == -1) || |line.left| > 0
    ensures r.Done? ==> r.value.jumpTo.None? && r.value.emitted.None?
    ensures r.Done? ==> (r.value.ok <==> TwoNumbers(vars, line).value.1 != 0 &&
                                         !(TwoNumbers(vars, line).value.0 == MinI64 && TwoNumbers(vars, line).value.1 == -1))
    ensures r.Done? && !r.value.ok ==> r.value.vars == vars
    ensures r.Done? && r.value.ok ==>
              |line.left| > 0 &&
              r.value.vars == vars.SetVal(line.left[0], Value.Number(TruncDiv(TwoNumbers(vars, line).value.0, TwoNumbers(vars, line).value.1)))
  {
    var (a, b) :- TwoNumbers(vars, line);
    if b == 0 || (a == MinI64 && b == -1) then Done(Refused(vars))
    else
      var dest :- Dest(line, 0);
      Done(Accepted(vars.SetVal(dest, Value.Number(TruncDiv(a, b)))))
  }

  /** `assign`: copy the operand into the first destination. */
  function AssignOp(vars: Variables, line: Line): (r: Outcome<Effect>)
    ensures r.Done? <==> Operand(vars, line, 0).Done? && |line.left| > 0
    ensures r.Done? ==> r.value == Accepted(vars.SetVal(line.left[0], Operand(vars, line, 0).value))
  {
    var v :- Operand(vars, line, 0);
    var dest :- Dest(line, 0);
    Done(Accepted(vars.SetVal(dest, v)))
  }

  /** `num_to_str`: the decimal text of the number, as a list of characters. */
  function NumToStrOp(vars: Variables, line: Line): (r: Outcome<Effect>)
    ensures r.Done? <==> NumberAt(vars, line, 0).Done? && |line.left| > 0
    ensures r.Done? ==> r.value == Accepted(vars.SetVal(line.left[0], FromString(DecimalText(NumberAt(vars, line, 0).value))))
  {
    var n :- NumberAt(vars, line, 0);
    var dest :- Dest(line, 0);
    Done(Accepted(vars.SetVal(dest, FromString(DecimalText(n)))))
  }

  /** `str_to_num`: refuses a list that is not all characters or whose text
      is not a decimal `i64`. */
  function StrToNumOp(vars: Variables, line: Line): (r: Outcome<Effect>)
    ensures r.Done? <==>
              && ListAt(vars, line, 0).Done?
              && var text := CharsOf(ListAt(vars, line, 0).value);
                 text.None? || ParseI64(text.value).None? || |line.left| > 0
    ensures r.Done? ==> r.value.jumpTo.None? && r.value.emitted.None?
    ensures r.Done? ==>
              var text := CharsOf(ListAt(vars, line, 0).value);
              r.value.ok <==> text.Some? && ParseI64(text.value).Some?
    ensures r.Done? && !r.value.ok ==> r.value.vars == vars
    ensures r.Done? && r.value.ok ==>
              var text := CharsOf(ListAt(vars, line, 0).value);
              text.Some? && ParseI64(text.value).Some? && |line.left| > 0 &&
              r.value.vars == vars.SetVal(line.left[0], Value.Number(ParseI64(text.value).value))
  {
    var l :- ListAt(vars, line, 0);
    match CharsOf(l)
    case None => Done(Refused(vars))
    case Some(text) =>
      match ParseI64(text)
      case None => Done(Refused(vars))
      case Some(n) =>
        var dest :- Dest(line, 0);
        Done(Accepted(vars.SetVal(dest, Value.Number(n))))
  }

  /** `jump` to a one-based target: line `target - 1` becomes the next line
      when it lies in `1 ..= programLength`, so target 1 is refused and
      target `programLength + 1` ends the program. */
  function JumpOp(programLength: nat, vars: Variables, line: Line): (r: Outcome<Effect>)
    ensures r.Done? <==> NumberAt(vars, line, 0).Done? && NumberAt(vars, line, 0).value != MinI64
    ensures r.Done? ==> r.value.vars == vars && r.value.emitted.None?
    ensures r.Done? ==> (r.value.ok <==> 2 <= NumberAt(vars, line, 0).value <= programLength + 1)
    ensures r.Done? && r.value.ok ==> r.value.jumpTo == Some(NumberAt(vars, line, 0).value - 1)
    ensures r.Done? && !r.value.ok ==> r.value.jumpTo.None?
  {
    var target :- NumberAt(vars, line, 0);
    if target == MinI64 then Crash("attempt to subtract with overflow")
    else
      var lineNr := target - 1;
      if lineNr > 0 && lineNr <= programLength then Done(Effect(vars, true, Some(lineNr), None))
      else Done(Refused(vars))
  }

  /** `get`: the element at a valid index, provided its tag is the type
      guessed for the destination. */
  function GetOp(vars: Variables, line: Line): (r: Outcome<Effect>)
    ensures r.Done? <==>
              && ListAt(vars, line, 0).Done? && NumberAt(vars, line, 1).Done?
              && var l, i := ListAt(vars, line, 0).value, NumberAt(vars, line, 1).value;
                 !(0 <= i < |l|) || (|line.left| > 0 && line.left[0] in vars.types)
    ensures r.Done? ==> r.value.jumpTo.None? && r.value.emitted.None?
    ensures r.Done? ==>
              var l, i := ListAt(vars, line, 0).value, NumberAt(vars, line, 1).value;
              r.value.ok <==> 0 <= i < |l| && |line.left| > 0 && line.left[0] in vars.types && l[i].Ty() == vars.types[line.left[0]]
    ensures r.Done? && !r.value.ok ==> r.value.vars == vars
    ensures r.Done? && r.value.ok ==>
              var l, i := ListAt(vars, line, 0).value, NumberAt(vars, line, 1).value;
              0 <= i < |l| && |line.left| > 0 && r.value.vars == vars.SetVal(line.left[0], l[i])
  {
    var l :- ListAt(vars, line, 0);
    var i :- NumberAt(vars, line, 1);
    if 0 <= i < |l| then
      var dest :- Dest(line, 0);
      var ty :- vars.GetType(dest);
      if l[i].Ty() == ty then Done(Accepted(vars.SetVal(dest, l[i]))) else Done(Refused(vars))
    else Done(Refused(vars))
  }

  /** `put`: a copy of the list that differs from it only at a valid index. */
  function PutOp(vars: Variables, line: Line): (r: Outcome<Effect>)
    ensures r.Done? <==>
              && ListAt(vars, line, 0).Done? && NumberAt(vars, line, 1).Done? && Operand(vars, line, 2).Done?
              && (!(0 <= NumberAt(vars, line, 1).value < |ListAt(vars, line, 0).value|) || |line.left| > 0)
    ensures r.Done? ==> r.value.jumpTo.None? && r.value.emitted.None?
    ensures r.Done? ==> (r.value.ok <==> 0 <= NumberAt(vars, line, 1).value < |ListAt(vars, line, 0).value|)
    ensures r.Done? && !r.value.ok ==> r.value.vars == vars
    ensures r.Done? && r.value.ok ==> |line.left| > 0 && line.left[0] in r.value.vars.values
    ensures r.Done? && r.value.ok ==>
              var l, i, e := ListAt(vars, line, 0).value, NumberAt(vars, line, 1).value, Operand(vars, line, 2).value;
              var w := r.value.vars.values[line.left[0]];
              r.value.vars == vars.SetVal(line.left[0], w) && w.List? && |w.elems| == |l| && w.elems[i] == e &&
              forall j | 0 <= j < |l| && j != i :: w.elems[j] == l[j]
  {
    var l :- ListAt(vars, line, 0);
    var i :- NumberAt(vars, line, 1);
    var e :- Operand(vars, line, 2);
    if 0 <= i < |l| then
      var dest :- Dest(line, 0);
      Done(Accepted(vars.SetVal(dest, Value.List(l[i := e]))))
    else Done(Refused(vars))
  }

  /** `push`: a copy of the list with the element appended last. */
  function PushOp(vars: Variables, line: Line): (r: Outcome<Effect>)
    ensures r.Done? <==> Operand(vars, line, 0).Done? && ListAt(vars, line, 1).Done? && |line.left| > 0
    ensures r.Done? ==> r.value.ok && r.value.jumpTo.None? && r.value.emitted.None?
    ensures r.Done? ==> line.left[0] in r.value.vars.values
    ensures r.Done? ==>
              var e, l := Operand(vars, line, 0).value, ListAt(vars, line, 1).value;
              var w := r.value.vars.values[line.left[0]];
              r.value.vars == vars.SetVal(line.left[0], w) && w.List? &&
              |w.elems| == |l| + 1 && w.elems[..|l|] == l && w.elems[|l|] == e
  {
    var e :- Operand(vars, line, 0);
    var l :- ListAt(vars, line, 1);
    var dest :- Dest(line, 0);
    assert (l + [e])[..|l|] == l;
    Done(Accepted(vars.SetVal(dest, Value.List(l + [e]))))
  }

  /** `pop`: the last element to the first destination, if its tag is the
      type guessed for it, and then the rest of the list to the second. */
  function PopOp(vars: Variables, line: Line): (r: Outcome<Effect>)
    ensures r.Done? <==>
              && ListAt(vars, line, 0).Done?
              && var l := ListAt(vars, line, 0).value;
                 || |l| == 0
                 || (&& |line.left| > 0 && line.left[0] in vars.types
                     && (l[|l| - 1].Ty() != vars.types[line.left[0]] || |line.left| > 1))
    ensures r.Done? ==> r.value.jumpTo.None? && r.value.emitted.None?
    ensures r.Done? ==>
              var l := ListAt(vars, line, 0).value;
              r.value.ok <==> |l| > 0 && |line.left| > 0 && line.left[0] in vars.types && l[|l| - 1].Ty() == vars.types[line.left[0]]
    ensures r.Done? && !r.value.ok ==> r.value.vars == vars
    ensures r.Done? && r.value.ok ==>
              var l := ListAt(vars, line, 0).value;
              |line.left| > 1 && |l| > 0 &&
              r.value.vars == vars.SetVal(line.left[0], l[|l| - 1]).SetVal(line.left[1], Value.List(l[..|l| - 1]))
  {
    var l :- ListAt(vars, line, 0);
    if |l| == 0 then Done(Refused(vars))
    else
      var last := l[|l| - 1];
      var dest :- Dest(line, 0);
      var ty :- vars.GetType(dest);
      if last.Ty() != ty then Done(Refused(vars))
      else
        var rest :- Dest(line, 1);
        Done(Accepted(vars.SetVal(dest, last).SetVal(rest, Value.List(l[..|l| - 1]))))
  }

  /** `length`: the number of elements. A vector never holds more elements
      than an `i64` can count, so the cast cannot truncate. */
  function LengthOp(vars: Variables, line: Line): (r: Outcome<Effect>)
    ensures r.Done? <==> ListAt(vars, line, 0).Done? && |line.left| > 0 && |ListAt(vars, line, 0).value| <= MaxI64
    ensures r.Done? ==> r.value == Accepted(vars.SetVal(line.left[0], Value.Number(|ListAt(vars, line, 0).value|)))
  {
    var l :- ListAt(vars, line, 0);
    var dest :- Dest(line, 0);
    if |l| <= MaxI64 then Done(Accepted(vars.SetVal(dest, Value.Number(|l|)))) else Crash("length exceeds i64")
  }

  /** One call `fun(runtime, variables, line)`. Whatever the candidate, types
      are never written, a refusal leaves the environment as it was, only
      destination names change, only `output` emits and only `jump` moves
      the next-line pointer, and only to a line of the program. */
  function Apply(f: Builtin, input: Value, programLength: nat, vars: Variables, line: Line): (r: Outcome<Effect>)
    ensures r.Done? ==> r.value.vars.types == vars.types
    ensures r.Done? && !r.value.ok ==> r.value.vars == vars
    ensures r.Done? ==> forall x | x in vars.values && x !in line.left ::
                          x in r.value.vars.values && r.value.vars.values[x] == vars.values[x]
    ensures r.Done? ==> forall x | x in r.value.vars.values :: x in vars.values || x in line.left
    ensures r.Done? && r.value.emitted.Some? ==> f == Output
    ensures r.Done? && r.value.jumpTo.Some? ==> f == Jump && 1 <= r.value.jumpTo.value <= programLength
    ensures r.Done? && !r.value.ok ==> f in {Div, StrToNum, Jump, Get, Put, Pop}
  {
    match f
    case Input => InputOp(input, vars, line)
    case Output => OutputOp(vars, line)
    case Add => ArithOp(f, vars, line)
    case Sub => ArithOp(f, vars, line)
    case Mul => ArithOp(f, vars, line)
    case Div => DivOp(vars, line)
    case Assign => AssignOp(vars, line)
    case NumToStr => NumToStrOp(vars, line)
    case StrToNum => StrToNumOp(vars, line)
    case Jump => JumpOp(programLength, vars, line)
    case Get => GetOp(vars, line)
    case Put => PutOp(vars, line)
    case Push => PushOp(vars, line)
    case Pop => PopOp(vars, line)
    case Length => LengthOp(vars, line)
  }

  // ---------------------------------------------------------------------
  // Properties relating several calls

  /** Converting a number to text and the text back to a number returns the
      number: `y = n` (num_to_str) then `z = y` (str_to_num) binds `z` to `n`. */
  lemma NumToStrThenStrToNum(vars: Variables, n: Int64, x: Name, y: Name, z: Name)
    requires x in vars.values && vars.values[x] == Value.Number(n)
    ensures var first := NumToStrOp(vars, Line([y], Some(Equals), [Variable(x)]));
            first.Done? && first.value.ok &&
            StrToNumOp(first.value.vars, Line([z], Some(Equals), [Variable(y)])) ==
              Done(Accepted(first.value.vars.SetVal(z, Value.Number(n))))
  {
    var first := NumToStrOp(vars, Line([y], Some(Equals), [Variable(x)]));
    var text := DecimalText(n);
    ToStringFromString(text);
    DecimalRoundTrip(n);
    assert first.value.vars.values[y] == FromString(text);
    assert ListAt(first.value.vars, Line([z], Some(Equals), [Variable(y)]), 0) == Done(FromString(text).elems);
  }

  /** A name that is also read at its guessed type is read as a list while
      holding a number: `x = x 1` with `x` guessed `List` selects `get`,
      which panics. */
  lemma GetOnMistypedOperandPanics(vars: Variables, x: Name, n: Int64)
    requires x in vars.values && vars.values[x] == Value.Number(n)
    ensures GetOp(vars, Line([x], Some(Equals), [Variable(x), Literal(Value.Number(1))])).Crash?
  {
  }

  /** The predefined `oh` is recorded as a list but holds a character, so
      reading it as a list operand panics, and `pop` on it panics whatever
      its destinations. */
  lemma MistypedListOperandPanics(vars: Variables, x: Name, c: char, left: seq<Name>)
    requires x in vars.values && vars.values[x] == Value.Char(c)
    ensures ListAt(vars, Line(left, Some(Equals), [Variable(x)]), 0).Crash?
    ensures PopOp(vars, Line(left, Some(Equals), [Variable(x)])).Crash?
  {
    var line := Line(left, Some(Equals), [Variable(x)]);
    assert Operand(vars, line, 0) == Done(Value.Char(c));
  }
}
