/** The values the language manipulates, their three type tags, their textual
    rendering (`Display`) and the two conversions between values and text
    (`from_string`, `to_string`), together with the decimal rendering and
    parsing of 64-bit integers that the number/text built-ins use. */
module Values {
  import opened Base

  /** The closed type alphabet. */
  datatype Type = Number | Char | List

  /** The order in which the enumeration iterator lists the tags. */
  const AllTypes: seq<Type> := [Type.Number, Type.Char, Type.List]

  /** A dynamically typed value. A list is heterogeneous: nothing forces its
      elements to share a tag. */
  datatype Value = Number(n: Int64) | Char(c: char) | List(elems: seq<Value>) {

    /** The coarse tag of a value: a list is `List` whatever its elements. */
    function Ty(): (t: Type)
      ensures t == Type.Number <==> Number?
      ensures t == Type.Char <==> Char?
      ensures t == Type.List <==> List?
    {
      match this
      case Number(_) => Type.Number
      case Char(_) => Type.Char
      case List(_) => Type.List
    }
  }

  lemma AllTypesEnumerates(t: Type)
    ensures t in AllTypes
    ensures |AllTypes| == 3
    ensures AllTypes[0] != AllTypes[1] && AllTypes[1] != AllTypes[2] && AllTypes[0] != AllTypes[2]
  {
  }

  // ---------------------------------------------------------------------
  // Text as a list of characters

  /** A list holding one `Char` per character of `s`. */
  function FromString(s: string): (v: Value)
    ensures v.List? && |v.elems| == |s|
    ensures forall i | 0 <= i < |s| :: v.elems[i] == Value.Char(s[i])
  {
    if s == [] then Value.List([]) else Value.List([Value.Char(s[0])] + FromString(s[1..]).elems)
  }

  /** The characters of a sequence of values, or `None` as soon as one element
      is not a `Char`. */
  function CharsOf(elems: seq<Value>): (r: Option<string>)
    ensures r.None? <==> exists i | 0 <= i < |elems| :: !elems[i].Char?
    ensures r.Some? ==> |r.value| == |elems| && forall i | 0 <= i < |elems| :: elems[i] == Value.Char(r.value[i])
  {
    if elems == [] then Some("")
    else if !elems[0].Char? then None
    else match CharsOf(elems[1..])
      case None => assert !elems[1..][0].Char? || exists i | 1 <= i < |elems| :: !elems[i].Char?; None
      case Some(rest) => Some([elems[0].c] + rest)
  }

  /** `to_string` of a list value. Applying it to a non-list panics in the
      source, so this is a precondition here. */
  function ToString(v: Value): (r: Option<string>)
    requires v.List?
    ensures r.None? <==> exists i | 0 <= i < |v.elems| :: !v.elems[i].Char?
    ensures r.Some? ==> |r.value| == |v.elems| && forall i | 0 <= i < |v.elems| :: v.elems[i] == Value.Char(r.value[i])
  {
    CharsOf(v.elems)
  }

  lemma {:induction false} ToStringFromString(s: string)
    ensures ToString(FromString(s)) == Some(s)
  {
    var v := FromString(s);
    var r := ToString(v);
    assert r.Some?;
    assert |r.value| == |s|;
    forall i | 0 <= i < |s| ensures r.value[i] == s[i] {
      assert v.elems[i] == Value.Char(r.value[i]) && v.elems[i] == Value.Char(s[i]);
    }
    assert r.value == s;
  }

  /** The converse: a list that `to_string` accepts is exactly the list built
      from the text it yields. */
  lemma FromStringToString(v: Value)
    requires v.List? && ToString(v).Some?
    ensures FromString(ToString(v).value) == v
  {
    var s := ToString(v).value;
    var w := FromString(s);
    assert w.elems == v.elems;
  }

  // ---------------------------------------------------------------------
  // Decimal integers

  predicate IsDigit(c: char) {
    '0' <= c <= '9'
  }

  predicate AllDigits(s: string) {
    forall i | 0 <= i < |s| :: IsDigit(s[i])
  }

  function DigitChar(d: nat): (c: char)
    requires d < 10
    ensures IsDigit(c) && c as int - '0' as int == d
  {
    ('0' as int + d) as char
  }

  /** The shortest decimal digits of `m`. */
  function DigitsOf(m: nat): (r: string)
    ensures |r| > 0 && AllDigits(r)
    ensures r[0] == '0' <==> m == 0
    ensures m == 0 ==> r == "0"
    decreases m
  {
    if m < 10 then [DigitChar(m)] else DigitsOf(m / 10) + [DigitChar(m % 10)]
  }

  /** The decimal rendering of an integer, as `Display` for `i64` writes it. */
  function DecimalText(n: int): (r: string)
    ensures |r| > 0
    ensures n < 0 ==> r[0] == '-' && AllDigits(r[1..])
    ensures n >= 0 ==> AllDigits(r)
    ensures n < 0 ==> |r| > 1 && r[1] != '0'
    ensures n >= 0 ==> (r[0] == '0' <==> n == 0)
    ensures n == 0 ==> r == "0"
  {
    if n < 0 then "-" + DigitsOf(-n) else DigitsOf(n)
  }

  /** The number a non-empty string of decimal digits denotes. */
  function ValueOfDigits(s: string): nat
    requires AllDigits(s)
  {
    if s == [] then 0 else ValueOfDigits(s[..|s| - 1]) * 10 + (s[|s| - 1] as int - '0' as int)
  }

  /** `i64::from_str`: an optional sign followed by at least one ASCII digit,
      denoting a number within the range of `i64`. */
  function ParseI64(s: string): (r: Option<Int64>)
    ensures r.Some? ==> |s| > 0 && AllDigits(if s[0] == '-' || s[0] == '+' then s[1..] else s)
    ensures r.Some? ==> |if s[0] == '-' || s[0] == '+' then s[1..] else s| > 0
    ensures r.Some? ==> r.value == (if s[0] == '-' then -(ValueOfDigits(s[1..]) as int)
                                    else if s[0] == '+' then ValueOfDigits(s[1..])
                                    else ValueOfDigits(s))
    ensures |s| > 0 ==>
              var body := if s[0] == '-' || s[0] == '+' then s[1..] else s;
              |body| > 0 && AllDigits(body) &&
              InI64(if s[0] == '-' then -(ValueOfDigits(body) as int) else ValueOfDigits(body))
              ==> r.Some?
  {
    if |s| == 0 then None
    else
      var negative := s[0] == '-';
      var body := if s[0] == '-' || s[0] == '+' then s[1..] else s;
      if |body| == 0 || !AllDigits(body) then None
      else
        var magnitude: int := ValueOfDigits(body);
        var x := if negative then -magnitude else magnitude;
        if InI64(x) then Some(x) else None
  }

  lemma {:induction false} DigitsRoundTrip(m: nat)
    ensures ValueOfDigits(DigitsOf(m)) == m
    decreases m
  {
    if m >= 10 {
      DigitsRoundTrip(m / 10);
      var d := DigitsOf(m);
      assert d[..|d| - 1] == DigitsOf(m / 10);
    }
  }

  /** Decimal text of every `i64` parses back to the same number. */
  lemma DecimalRoundTrip(n: Int64)
    ensures ParseI64(DecimalText(n)) == Some(n)
  {
    var s := DecimalText(n);
    if n < 0 {
      var m: nat := -(n as int);
      DigitsRoundTrip(m);
      assert s[1..] == DigitsOf(m);
    } else {
      DigitsRoundTrip(n);
      assert IsDigit(s[0]);
    }
  }

  // ---------------------------------------------------------------------
  // Rendering

  /** The elements joined by `sep`; the reference definition of a
      separated listing. */
  function JoinWith(parts: seq<string>, sep: string): string
    requires |parts| > 0
  {
    if |parts| == 1 then parts[0] else parts[0] + sep + JoinWith(parts[1..], sep)
  }

  /** Every element followed by `", "`, as the collecting step of
      `comma_seperated` builds it before cutting the last separator. */
  function Suffixed(parts: seq<string>): (r: string)
    ensures |r| >= 2 * |parts|
  {
    if parts == [] then "" else parts[0] + ", " + Suffixed(parts[1..])
  }

  lemma {:induction false} SuffixedIsJoin(parts: seq<string>)
    requires |parts| > 0
    ensures Suffixed(parts) == JoinWith(parts, ", ") + ", "
  {
    if |parts| > 1 {
      SuffixedIsJoin(parts[1..]);
    }
  }

  /** `comma_seperated` applied to the renderings of the elements. It is only
      called on a non-empty list (an empty one underflows the length). */
  function CommaSeparated(parts: seq<string>): (r: string)
    requires |parts| > 0
    ensures r == JoinWith(parts, ", ")
  {
    var s := Suffixed(parts);
    SuffixedIsJoin(parts);
    s[..|s| - 2]
  }

  /** `Display` for values: a list of characters prints as its text, any
      other list as its bracketed, comma-separated elements. */
  function Render(v: Value): (r: string)
    ensures v.Number? ==> r == DecimalText(v.n)
    ensures v.Char? ==> r == [v.c]
    ensures v.List? && ToString(v).Some? ==> r == ToString(v).value
    ensures v.List? && ToString(v).None? ==>
              |v.elems| > 0 && r == "[" + JoinWith(seq(|v.elems|, i requires 0 <= i < |v.elems| => Render(v.elems[i])), ", ") + "]"
    decreases v
  {
    match v
    case Number(n) => DecimalText(n)
    case Char(c) => [c]
    case List(l) =>
      match CharsOf(l)
      case Some(s) => s
      case None =>
        "[" + CommaSeparated(seq(|l|, i requires 0 <= i < |l| => Render(l[i]))) + "]"
  }

  /** A rendered text list prints as its text: output of a converted number
      shows the digits, not a bracketed list. */
  lemma RenderFromString(s: string)
    ensures Render(FromString(s)) == s
  {
    ToStringFromString(s);
  }
}
