/** The front end: program text becomes lines of destination names, an
    optional operator and source items; and the signature of a line under
    the types currently recorded, which is the key into the registry. */
module Syntax {
  import opened Base
  import opened Values
  import opened Environment

  datatype Op = Equals

  /** A source item: a variable reference or an embedded literal. */
  datatype Item = Variable(name: Name) | Literal(lit: Value)

  /** `left op right`; a line without `=` has no destinations and no
      operator. */
  datatype Line = Line(left: seq<Name>, op: Option<Op>, right: seq<Item>)

  datatype Program = Program(lines: seq<Line>)

  /** A signature: the input types, the operator and the output types. */
  datatype FunctionType = FunctionType(inTy: seq<Type>, op: Option<Op>, outTy: seq<Type>)

  // ---------------------------------------------------------------------
  // Splitting text

  /** `str::split` on one character: the pieces between the separators,
      empty pieces included, so there is always at least one. */
  function Split(s: string, sep: char): (r: seq<string>)
    ensures |r| > 0
    ensures forall k | 0 <= k < |r| :: sep !in r[k]
  {
    if s == [] then [""]
    else
      var rest := Split(s[1..], sep);
      if s[0] == sep then [""] + rest else [[s[0]] + rest[0]] + rest[1..]
  }

  lemma {:induction false} SplitJoin(s: string, sep: char)
    ensures JoinWith(Split(s, sep), [sep]) == s
  {
    if s != [] {
      SplitJoin(s[1..], sep);
      var rest := Split(s[1..], sep);
      if s[0] != sep && |rest| > 1 {
        assert JoinWith(rest, [sep]) == rest[0] + [sep] + JoinWith(rest[1..], [sep]);
      }
    }
  }

  lemma {:induction false} SplitSeparatorFree(p: string, sep: char)
    requires sep !in p
    ensures Split(p, sep) == [p]
  {
    if p != [] {
      assert p[0] != sep && sep !in p[1..];
      SplitSeparatorFree(p[1..], sep);
      assert p == [p[0]] + p[1..];
    }
  }

  lemma {:induction false} SplitAtSeparator(p: string, sep: char, t: string)
    requires sep !in p
    ensures Split(p + [sep] + t, sep) == [p] + Split(t, sep)
  {
    if p != [] {
      assert (p + [sep] + t)[1..] == p[1..] + [sep] + t;
      assert (p + [sep] + t)[0] == p[0] != sep;
      assert sep !in p[1..];
      SplitAtSeparator(p[1..], sep, t);
      assert p == [p[0]] + p[1..];
    } else {
      assert (p + [sep] + t)[1..] == t;
    }
  }

  /** Splitting undoes joining pieces that do not contain the separator. */
  lemma {:induction false} JoinSplit(parts: seq<string>, sep: char)
    requires |parts| > 0
    requires forall k | 0 <= k < |parts| :: sep !in parts[k]
    ensures Split(JoinWith(parts, [sep]), sep) == parts
  {
    if |parts| == 1 {
      SplitSeparatorFree(parts[0], sep);
    } else {
      JoinSplit(parts[1..], sep);
      SplitAtSeparator(parts[0], sep, JoinWith(parts[1..], [sep]));
    }
  }

  /** `str::split_once`: the text before and after the first separator. */
  function SplitOnce(s: string, sep: char): (r: Option<(string, string)>)
    ensures r.None? <==> sep !in s
    ensures r.Some? ==> s == r.value.0 + [sep] + r.value.1 && sep !in r.value.0
  {
    if s == [] then None
    else if s[0] == sep then Some(("", s[1..]))
    else match SplitOnce(s[1..], sep)
      case None => None
      case Some(pair) => Some(([s[0]] + pair.0, pair.1))
  }

  /** The first separator is where `split_once` cuts. */
  lemma {:induction false} SplitOnceAt(a: string, sep: char, b: string)
    requires sep !in a
    ensures SplitOnce(a + [sep] + b, sep) == Some((a, b))
  {
    if a != [] {
      assert (a + [sep] + b)[1..] == a[1..] + [sep] + b;
      assert sep !in a[1..];
      SplitOnceAt(a[1..], sep, b);
      assert [a[0]] + a[1..] == a;
    } else {
      assert (a + [sep] + b)[1..] == b;
    }
  }

  /** The pieces that are not empty, in order. */
  function NonEmpty(parts: seq<string>): (r: seq<string>)
    ensures |r| <= |parts|
    ensures forall k | 0 <= k < |r| :: r[k] != "" && r[k] in parts
    ensures (forall k | 0 <= k < |parts| :: parts[k] != "") ==> r == parts
    ensures forall x :: x in r <==> x in parts && x != ""
  {
    if parts == [] then []
    else if parts[0] == "" then NonEmpty(parts[1..])
    else [parts[0]] + NonEmpty(parts[1..])
  }

  /** Filtering distributes over concatenation, so the kept pieces stay in
      their original order. */
  lemma {:induction false} NonEmptyAppend(a: seq<string>, b: seq<string>)
    ensures NonEmpty(a + b) == NonEmpty(a) + NonEmpty(b)
  {
    if a == [] {
      assert a + b == b;
    } else {
      var ab := a + b;
      assert ab[0] == a[0] && ab[1..] == a[1..] + b;
      NonEmptyAppend(a[1..], b);
      if a[0] == "" {
        assert NonEmpty(ab) == NonEmpty(a[1..] + b);
      } else {
        assert NonEmpty(ab) == [a[0]] + NonEmpty(a[1..] + b);
      }
    }
  }

  /** `str::lines`: pieces ending in a newline lose it and one carriage
      return before it; a last piece without a newline is kept unless empty. */
  function Lines(text: string): (r: seq<string>)
    ensures forall k | 0 <= k < |r| :: '\n' !in r[k]
  {
    if text == [] then []
    else
      var pieces := Split(text, '\n');
      var last := pieces[|pieces| - 1];
      StripCarriageReturns(pieces[..|pieces| - 1]) + (if last == "" then [] else [last])
  }

  /** One line of `str::lines`: a carriage return before its newline is
      dropped, and nothing else. */
  function StripCr(p: string): (q: string)
    ensures q == p || q + "\r" == p
    ensures q + "\r" == p <==> p != [] && p[|p| - 1] == '\r'
    ensures '\r' !in p ==> q == p
  {
    if p != [] && p[|p| - 1] == '\r' then
      assert p[..|p| - 1] + "\r" == p;
      p[..|p| - 1]
    else
      assert |p + "\r"| != |p|;
      p
  }

  function StripCarriageReturns(pieces: seq<string>): (r: seq<string>)
    ensures |r| == |pieces|
    ensures forall k | 0 <= k < |r| :: r[k] == pieces[k] || r[k] + "\r" == pieces[k]
    ensures forall k | 0 <= k < |r| ::
              r[k] + "\r" == pieces[k] <==> pieces[k] != [] && pieces[k][|pieces[k]| - 1] == '\r'
    ensures forall k | 0 <= k < |r| :: '\r' !in pieces[k] ==> r[k] == pieces[k]
  {
    seq(|pieces|, k requires 0 <= k < |pieces| => StripCr(pieces[k]))
  }

  lemma {:induction false} JoinSnoc(parts: seq<string>, sep: string, x: string)
    requires |parts| > 0
    ensures JoinWith(parts + [x], sep) == JoinWith(parts, sep) + sep + x
  {
    if |parts| > 1 {
      assert (parts + [x])[1..] == parts[1..] + [x];
      JoinSnoc(parts[1..], sep, x);
    }
  }

  lemma {:induction false} SplitLastEmpty(s: string, sep: char)
    ensures Split(s, sep)[|Split(s, sep)| - 1] == "" <==> s == [] || s[|s| - 1] == sep
  {
    if s != [] {
      SplitLastEmpty(s[1..], sep);
    }
  }

  /** A character absent from the text is absent from every piece. */
  lemma {:induction false} SplitPiecesAvoid(s: string, sep: char, c: char)
    requires c !in s
    ensures forall k | 0 <= k < |Split(s, sep)| :: c !in Split(s, sep)[k]
  {
    if s != [] {
      assert c !in s[1..];
      SplitPiecesAvoid(s[1..], sep, c);
    }
  }

  /** Pieces without carriage returns are kept as they are. */
  lemma StripNothing(pieces: seq<string>)
    requires forall k | 0 <= k < |pieces| :: '\r' !in pieces[k]
    ensures StripCarriageReturns(pieces) == pieces
  {
  }

  /** A join whose last piece is empty ends with the separator. */
  lemma JoinEmptyLast(pieces: seq<string>, sep: string)
    requires |pieces| >= 2 && pieces[|pieces| - 1] == ""
    ensures JoinWith(pieces[..|pieces| - 1], sep) + sep == JoinWith(pieces, sep)
  {
    var init := pieces[..|pieces| - 1];
    assert pieces == init + [""];
    JoinSnoc(init, sep, "");
    assert JoinWith(init, sep) + sep + "" == JoinWith(init, sep) + sep;
  }

  /** `str::lines` of text without carriage returns: the newline-separated
      pieces, without a last empty one. */
  lemma LinesPieces(text: string)
    requires '\r' !in text && text != []
    ensures var pieces := Split(text, '\n');
            Lines(text) == pieces[..|pieces| - 1] + (if pieces[|pieces| - 1] == "" then [] else [pieces[|pieces| - 1]])
  {
    var pieces := Split(text, '\n');
    SplitPiecesAvoid(text, '\n', '\r');
    StripNothing(pieces[..|pieces| - 1]);
  }

  /** Each line followed by a carriage return, as the pieces of CRLF text
      hold them before `str::lines` strips it. */
  function CrTerminated(ls: seq<string>): (r: seq<string>)
    ensures |r| == |ls| && forall k | 0 <= k < |ls| :: r[k] == ls[k] + "\r"
  {
    seq(|ls|, k requires 0 <= k < |ls| => ls[k] + "\r")
  }

  lemma {:induction false} SplitCrlf(ls: seq<string>)
    requires |ls| > 0
    requires forall k | 0 <= k < |ls| :: '\n' !in ls[k] && '\r' !in ls[k]
    ensures Split(JoinWith(ls, "\r\n") + "\r\n", '\n') == CrTerminated(ls) + [""]
  {
    var head := ls[0] + "\r";
    assert '\n' !in head;
    if |ls| == 1 {
      assert JoinWith(ls, "\r\n") + "\r\n" == head + ['\n'] + "";
      SplitAtSeparator(head, '\n', "");
    } else {
      var rest := JoinWith(ls[1..], "\r\n") + "\r\n";
      assert JoinWith(ls, "\r\n") + "\r\n" == head + ['\n'] + rest;
      SplitAtSeparator(head, '\n', rest);
      SplitCrlf(ls[1..]);
      assert CrTerminated(ls) == [head] + CrTerminated(ls[1..]);
    }
  }

  /** Lines ended by CRLF come back as the lines: every line loses its
      `"\r\n"`, and the terminator of the last line adds no empty line. */
  lemma CrlfLines(ls: seq<string>)
    requires |ls| > 0
    requires forall k | 0 <= k < |ls| :: '\n' !in ls[k] && '\r' !in ls[k]
    ensures Lines(JoinWith(ls, "\r\n") + "\r\n") == ls
  {
    var text := JoinWith(ls, "\r\n") + "\r\n";
    SplitCrlf(ls);
    var pieces := Split(text, '\n');
    var crt := CrTerminated(ls);
    assert pieces[..|pieces| - 1] == crt;
    var s := StripCarriageReturns(crt);
    forall k | 0 <= k < |ls| ensures s[k] == ls[k] {
      var p := crt[k];
      assert p == ls[k] + "\r" && p[|p| - 1] == '\r';
      assert s[k] + "\r" == ls[k] + "\r";
      assert s[k] == (s[k] + "\r")[..|s[k]|] == (ls[k] + "\r")[..|ls[k]|] == ls[k];
    }
  }

  /** Text without carriage returns is its lines joined by newlines, followed
      by a newline exactly when the text ends with one. */
  lemma LinesJoin(text: string)
    requires '\r' !in text && text != []
    ensures |Lines(text)| > 0
    ensures text[|text| - 1] != '\n' ==> JoinWith(Lines(text), "\n") == text
    ensures text[|text| - 1] == '\n' ==> JoinWith(Lines(text), "\n") + "\n" == text
  {
    var pieces := Split(text, '\n');
    var n := |pieces|;
    SplitJoin(text, '\n');
    SplitLastEmpty(text, '\n');
    LinesPieces(text);
    if pieces[n - 1] == "" {
      if n == 1 {
        assert false;
      }
      JoinEmptyLast(pieces, "\n");
      assert Lines(text) == pieces[..n - 1];
    } else {
      assert pieces[..n - 1] + [pieces[n - 1]] == pieces;
    }
  }

  /** Every character of a piece is a character of the joined text. */
  lemma {:induction false} PieceInJoin(parts: seq<string>, sep: string, k: nat)
    requires k < |parts|
    ensures forall c | c in parts[k] :: c in JoinWith(parts, sep)
  {
    if |parts| > 1 && k > 0 {
      PieceInJoin(parts[1..], sep, k - 1);
    }
  }

  // ---------------------------------------------------------------------
  // Items and lines

  /** The characters up to (not including) the next double quote. */
  function UpToQuote(s: string): (r: string)
    ensures '"' !in r && r <= s
    ensures r == s || r + "\"" <= s
  {
    match SplitOnce(s, '"')
    case None => s
    case Some(pair) =>
      assert s == pair.0 + ['"'] + pair.1;
      assert pair.0 + "\"" == s[..|pair.0| + 1];
      pair.0
  }

  /** `Item::parse`: a token is classified by its first character. An empty
      token, a number literal out of range or with a stray character, a
      lone quote mark or an unknown first character all panic.
      `isAlpha` stands for Unicode alphabetic classification. */
  function ParseItem(tok: string, isAlpha: char -> bool): (r: Outcome<Item>)
    ensures tok == "" ==> r.Crash?
    ensures tok != "" && isAlpha(tok[0]) ==> r == Done(Variable(tok))
    ensures tok != "" && !isAlpha(tok[0]) && IsDigit(tok[0]) ==>
              (r.Done? <==> ParseI64(tok).Some?) && (r.Done? ==> r.value == Literal(Value.Number(ParseI64(tok).value)))
    ensures tok != "" && !isAlpha(tok[0]) && tok[0] == '"' ==>
              r.Done? && r.value.Literal? && r.value.lit.List? &&
              ToString(r.value.lit) == Some(UpToQuote(tok[1..]))
    ensures tok != "" && !isAlpha(tok[0]) && tok[0] == '\'' ==>
              (r.Done? <==> |tok| >= 2) && (r.Done? ==> r.value == Literal(Value.Char(tok[1])))
    ensures tok != "" && !isAlpha(tok[0]) && !IsDigit(tok[0]) && tok[0] != '"' && tok[0] != '\'' ==> r.Crash?
  {
    if tok == "" then Crash("called `Option::unwrap()` on a `None` value")
    else
      var first := tok[0];
      if isAlpha(first) then Done(Variable(tok))
      else if IsDigit(first) then
        match ParseI64(tok)
        case Some(n) => Done(Literal(Value.Number(n)))
        case None => Crash("called `Result::unwrap()` on an `Err` value")
      else if first == '"' then
        ToStringFromString(UpToQuote(tok[1..]));
        Done(Literal(FromString(UpToQuote(tok[1..]))))
      else if first == '\'' then
        if |tok| >= 2 then Done(Literal(Value.Char(tok[1]))) else Crash("called `Option::unwrap()` on a `None` value")
      else Crash("Bad input")
  }

  /** Every token parsed, or the first panic. */
  function ParseItems(toks: seq<string>, isAlpha: char -> bool): (r: Outcome<seq<Item>>)
    ensures r.Done? <==> forall k | 0 <= k < |toks| :: ParseItem(toks[k], isAlpha).Done?
    ensures r.Done? ==> |r.value| == |toks| && forall k | 0 <= k < |toks| :: r.value[k] == ParseItem(toks[k], isAlpha).value
  {
    if toks == [] then Done([])
    else
      var first :- ParseItem(toks[0], isAlpha);
      var rest :- ParseItems(toks[1..], isAlpha);
      Done([first] + rest)
  }

  /** The item tokens of a line: after the first `=` with empty tokens
      dropped, or the whole line with empty tokens kept. */
  function RightTokens(s: string): (r: seq<string>)
    ensures '=' in s ==> forall k | 0 <= k < |r| :: r[k] != ""
    ensures '=' !in s ==> r == Split(s, ' ')
    ensures SplitOnce(s, '=').Some? ==> r == NonEmpty(Split(SplitOnce(s, '=').value.1, ' '))
  {
    match SplitOnce(s, '=')
    case Some(pair) => NonEmpty(Split(pair.1, ' '))
    case None => Split(s, ' ')
  }

  /** `Line::parse`. With an `=`, the text before the first `=` gives the
      destinations and the text after it the items, empty tokens dropped on
      both sides; without an `=`, every space-separated token is an item and
      empty tokens are kept, so that they panic. */
  function ParseLine(s: string, isAlpha: char -> bool): (r: Outcome<Line>)
    ensures r.Done? ==> (r.value.op == Some(Equals) <==> '=' in s) && (r.value.op.None? <==> '=' !in s)
    ensures r.Done? ==> forall k | 0 <= k < |r.value.left| ::
              r.value.left[k] != "" && ' ' !in r.value.left[k] && '=' !in r.value.left[k]
    ensures '=' !in s ==> (r.Done? ==> r.value.left == [])
    ensures SplitOnce(s, '=').Some? && r.Done? ==> r.value.left == NonEmpty(Split(SplitOnce(s, '=').value.0, ' '))
    ensures r.Crash? <==> exists k | 0 <= k < |RightTokens(s)| :: ParseItem(RightTokens(s)[k], isAlpha).Crash?
    ensures r.Done? ==> |r.value.right| == |RightTokens(s)|
    ensures r.Done? ==> forall k | 0 <= k < |RightTokens(s)| :: r.value.right[k] == ParseItem(RightTokens(s)[k], isAlpha).value
  {
    var toks := RightTokens(s);
    var parsed := ParseItems(toks, isAlpha);
    assert parsed.Crash? <==> exists k | 0 <= k < |toks| :: ParseItem(toks[k], isAlpha).Crash?;
    match SplitOnce(s, '=')
    case Some(pair) =>
      var left := NonEmpty(Split(pair.0, ' '));
      assert forall k | 0 <= k < |left| :: '=' !in left[k] by {
        forall k | 0 <= k < |left| ensures '=' !in left[k] {
          var j :| 0 <= j < |Split(pair.0, ' ')| && Split(pair.0, ' ')[j] == left[k];
          SplitJoin(pair.0, ' ');
          PieceInJoin(Split(pair.0, ' '), " ", j);
        }
      }
      var right :- parsed;
      Done(Line(left, Some(Equals), right))
    case None =>
      var right :- parsed;
      Done(Line([], None, right))
  }

  /** A line is cut at its first `=`: the non-empty space-separated tokens
      before it are the destinations, those after it the items (a later `=`
      is part of an item token). */
  lemma CutAtFirstEquals(a: string, b: string, isAlpha: char -> bool)
    requires '=' !in a
    ensures RightTokens(a + "=" + b) == NonEmpty(Split(b, ' '))
    ensures ParseLine(a + "=" + b, isAlpha).Crash? <==>
              exists k | 0 <= k < |NonEmpty(Split(b, ' '))| :: ParseItem(NonEmpty(Split(b, ' '))[k], isAlpha).Crash?
    ensures ParseLine(a + "=" + b, isAlpha).Done? ==>
              ParseLine(a + "=" + b, isAlpha).value.left == NonEmpty(Split(a, ' '))
  {
    assert a + "=" + b == a + ['='] + b;
    SplitOnceAt(a, '=', b);
  }

  /** A line without `=` that holds an empty token (a blank line, a double
      or trailing space) panics. */
  lemma EmptyTokenPanics(s: string, isAlpha: char -> bool)
    requires '=' !in s && "" in Split(s, ' ')
    ensures ParseLine(s, isAlpha).Crash?
  {
    var k :| 0 <= k < |Split(s, ' ')| && Split(s, ' ')[k] == "";
    assert ParseItem(RightTokens(s)[k], isAlpha).Crash?;
  }

  function ParseLines(texts: seq<string>, isAlpha: char -> bool): (r: Outcome<seq<Line>>)
    ensures r.Done? <==> forall k | 0 <= k < |texts| :: ParseLine(texts[k], isAlpha).Done?
    ensures r.Done? ==> |r.value| == |texts| && forall k | 0 <= k < |texts| :: r.value[k] == ParseLine(texts[k], isAlpha).value
  {
    if texts == [] then Done([])
    else
      var first :- ParseLine(texts[0], isAlpha);
      var rest :- ParseLines(texts[1..], isAlpha);
      Done([first] + rest)
  }

  /** `Program::parse`: one line per line of text. */
  function ParseProgram(text: string, isAlpha: char -> bool): (r: Outcome<Program>)
    ensures r.Done? <==> forall k | 0 <= k < |Lines(text)| :: ParseLine(Lines(text)[k], isAlpha).Done?
    ensures r.Done? ==> |r.value.lines| == |Lines(text)|
    ensures r.Done? ==> forall k | 0 <= k < |Lines(text)| :: r.value.lines[k] == ParseLine(Lines(text)[k], isAlpha).value
  {
    var lines :- ParseLines(Lines(text), isAlpha);
    Done(Program(lines))
  }

  /** `Item::value`: a literal is itself; a variable is looked up, and an
      unbound one panics. */
  function ItemValue(item: Item, vars: Variables): (r: Outcome<Value>)
    ensures item.Literal? ==> r == Done(item.lit)
    ensures item.Variable? ==> (r.Done? <==> item.name in vars.values)
    ensures item.Variable? && r.Done? ==> r.value == vars.values[item.name]
  {
    match item
    case Variable(name) => vars.GetVal(name)
    case Literal(lit) => Done(lit)
  }

  // ---------------------------------------------------------------------
  // Signatures

  /** The recorded types of the names, or a panic at the first unknown one. */
  function TypesOfNames(names: seq<Name>, types: map<Name, Type>): (r: Outcome<seq<Type>>)
    ensures r.Done? <==> forall k | 0 <= k < |names| :: names[k] in types
    ensures r.Done? ==> |r.value| == |names| && forall k | 0 <= k < |names| :: r.value[k] == types[names[k]]
  {
    if names == [] then Done([])
    else if names[0] !in types then Crash("called `Option::unwrap()` on a `None` value")
    else
      var rest :- TypesOfNames(names[1..], types);
      Done([types[names[0]]] + rest)
  }

  predicate Typed(item: Item, types: map<Name, Type>) {
    item.Variable? ==> item.name in types
  }

  /** The type of an item: a literal's own tag, or a variable's recorded type. */
  function TypeOfItem(item: Item, types: map<Name, Type>): Type
    requires Typed(item, types)
  {
    match item
    case Variable(name) => types[name]
    case Literal(lit) => lit.Ty()
  }

  function TypesOfItems(items: seq<Item>, types: map<Name, Type>): (r: Outcome<seq<Type>>)
    ensures r.Done? <==> forall k | 0 <= k < |items| :: Typed(items[k], types)
    ensures r.Done? ==> |r.value| == |items| && forall k | 0 <= k < |items| :: r.value[k] == TypeOfItem(items[k], types)
  {
    if items == [] then Done([])
    else if !Typed(items[0], types) then Crash("called `Option::unwrap()` on a `None` value")
    else
      var rest :- TypesOfItems(items[1..], types);
      Done([TypeOfItem(items[0], types)] + rest)
  }

  /** `Line::fun_ty`: the signature of a line under the recorded types. Every
      destination and every variable item must have a recorded type. */
  function FunTy(line: Line, types: map<Name, Type>): (r: Outcome<FunctionType>)
    ensures r.Done? <==> (forall k | 0 <= k < |line.left| :: line.left[k] in types) &&
                         (forall k | 0 <= k < |line.right| :: Typed(line.right[k], types))
    ensures r.Done? ==> r.value.op == line.op && |r.value.outTy| == |line.left| && |r.value.inTy| == |line.right|
    ensures r.Done? ==> forall k | 0 <= k < |line.left| :: r.value.outTy[k] == types[line.left[k]]
    ensures r.Done? ==> forall k | 0 <= k < |line.right| :: r.value.inTy[k] == TypeOfItem(line.right[k], types)
  {
    var outTy :- TypesOfNames(line.left, types);
    var inTy :- TypesOfItems(line.right, types);
    Done(FunctionType(inTy, line.op, outTy))
  }
}
