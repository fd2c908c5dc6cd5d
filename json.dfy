/** The JSON values the transformer walks, as `json.load` returns them:
    dicts, lists and scalars. */
module Json {
  import opened Decimal

  /** An object keeps its members in insertion order, which is the order in which
      Python's `dict.items()` and `dict.values()` iterate. */
  datatype Json =
    | Obj(members: seq<(string, Json)>)
    | Arr(items: seq<Json>)
    | Str(text: string)
    | Int(value: int)
    | Bool(truth: bool)
    | Null

  /** `isinstance(v, (dict, list))` */
  predicate IsComposite(v: Json) {
    v.Obj? || v.Arr?
  }

  /** Number of elements of a list or members of a dict. */
  function Width(v: Json): nat
    requires IsComposite(v)
  {
    match v
    case Obj(members) => |members|
    case Arr(items) => |items|
  }

  /** The i-th element of a list, or the value of the i-th member of a dict. */
  function Child(v: Json, i: nat): (c: Json)
    requires IsComposite(v) && i < Width(v)
    ensures c < v
  {
    match v
    case Obj(members) => members[i].1
    case Arr(items) => items[i]
  }

  /** Python's `str(n)` for an integer: an optional minus sign, then the
      shortest decimal digits of its magnitude. */
  function IntText(n: int): string {
    if n < 0 then "-" + Digits(-n) else Digits(n)
  }

  /** Python's `str(v)` for the scalars `json.load` produces: the text itself for
      a string, `True`/`False` for booleans and `None` for null. */
  function ScalarText(v: Json): string
    requires !IsComposite(v)
  {
    match v
    case Str(text) => text
    case Int(value) => IntText(value)
    case Bool(truth) => if truth then "True" else "False"
    case Null => "None"
  }

  /** Number of lists and dicts strictly inside v. */
  function Inner(v: Json): nat
    decreases v, 1
  {
    if IsComposite(v) then InnerFrom(v, 0) else 0
  }

  /** Number of lists and dicts at or below the elements i, i+1, ... of v. */
  function InnerFrom(v: Json, i: nat): nat
    requires IsComposite(v) && i <= Width(v)
    decreases v, 0, Width(v) - i
  {
    if i == Width(v) then 0
    else (if IsComposite(Child(v, i)) then 1 + Inner(Child(v, i)) else 0) + InnerFrom(v, i + 1)
  }

  /** An integer's text reads back as the integer: a minus sign exactly for
      negative values, followed by the decimal digits of the magnitude. */
  lemma IntTextValue(n: int)
    ensures n >= 0 ==> (forall i :: 0 <= i < |IntText(n)| ==> IsDigit(IntText(n)[i])) && ValueOf(IntText(n)) == n
    ensures n < 0 ==> IntText(n)[0] == '-' && ValueOf(IntText(n)[1..]) == -n
  {
    if n < 0 {
      var d := Digits(-n);
      assert IntText(n) == "-" + d;
      assert ("-" + d)[1..] == d;
      ValueOfDigits(-n);
    } else {
      assert IntText(n) == Digits(n);
      ValueOfDigits(n);
    }
  }

  /** The digits are not padded: they start with `0` only for zero itself. */
  lemma IntTextCanonical(n: int)
    ensures n >= 0 ==> (IntText(n)[0] == '0' <==> n == 0)
    ensures n < 0 ==> |IntText(n)| >= 2 && IntText(n)[1] != '0'
  {
    if n < 0 {
      var d := Digits(-n);
      assert IntText(n) == "-" + d;
      NoLeadingZero(-n);
      assert IntText(n)[1] == d[0];
    } else {
      NoLeadingZero(n);
    }
  }

}
