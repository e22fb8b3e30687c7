/**
  Python dictionaries as they travel between the pipeline's stages
  (`Paper.to_dict()`, crawler results, favourites and database rows).
  A dictionary is a finite map from key to a small sum of the value
  kinds those dictionaries hold; `.get`, truthiness, `or` and `str()`
  are spelled out as functions.
 */
module Values {
  import opened Text
  import opened Wrappers

  datatype Value =
    | Nil                    // None
    | Str(s: string)
    | Num(n: int)
    | Flag(b: bool)
    | Strs(items: seq<string>)

  type Dict = map<string, Value>

  /** A field of a decoded JSON object: key absent, present as null, or present with a value. */
  datatype Field<T> = Absent | Null | Val(v: T)

  /** `d.get(k, default)` */
  function Get(d: Dict, k: string, default: Value): Value {
    if k in d then d[k] else default
  }

  /** Python truthiness: None, "", 0, False and [] are false. */
  predicate Truthy(v: Value) {
    match v
    case Nil => false
    case Str(s) => s != ""
    case Num(n) => n != 0
    case Flag(b) => b
    case Strs(xs) => xs != []
  }

  /** `a or b` */
  function Or(a: Value, b: Value): (r: Value)
    ensures Truthy(a) ==> r == a
    ensures !Truthy(a) ==> r == b
  {
    if Truthy(a) then a else b
  }

  /** `str(v)`, as an f-string renders it (list elements without escaping). */
  function Render(v: Value): string {
    match v
    case Nil => "None"
    case Str(s) => s
    case Num(n) => IntToStr(n)
    case Flag(b) => if b then "True" else "False"
    case Strs(xs) => "[" + Join(Quoted(xs), ", ") + "]"
  }

  function Quoted(xs: seq<string>): (r: seq<string>)
    ensures |r| == |xs|
  {
    if |xs| == 0 then [] else ["'" + xs[0] + "'"] + Quoted(xs[1..])
  }

  /** A string-or-None field as a Value. */
  function FromOpt(o: Option<string>): Value {
    match o
    case None => Nil
    case Some(s) => Str(s)
  }

  /** Reads back a string-or-None Value; None when the Value has another kind. */
  function ToOpt(v: Value): Option<Option<string>> {
    match v
    case Nil => Some(None)
    case Str(s) => Some(Some(s))
    case _ => None
  }

  lemma ToOptFromOpt(o: Option<string>)
    ensures ToOpt(FromOpt(o)) == Some(o)
  {
  }

  /** The present values, in order. */
  function Present(xs: seq<Option<string>>): (r: seq<string>)
    ensures |r| <= |xs|
    ensures forall s :: s in r <==> Some(s) in xs
  {
    if |xs| == 0 then []
    else
      var rest := Present(xs[1..]);
      assert xs == [xs[0]] + xs[1..];
      if xs[0].Some? then [xs[0].value] + rest else rest
  }

  /** One entry: its value when present, nothing otherwise. */
  lemma PresentOne(x: Option<string>)
    ensures Present([x]) == (if x.Some? then [x.value] else [])
  {
    assert [x][1..] == [];
  }

  /** The present values of consecutive entries stay side by side, in order and with repeats. */
  lemma {:induction false} PresentAppend(a: seq<Option<string>>, b: seq<Option<string>>)
    ensures Present(a + b) == Present(a) + Present(b)
    decreases |a|
  {
    if |a| == 0 {
      assert a + b == b;
    } else {
      assert (a + b)[0] == a[0] && (a + b)[1..] == a[1..] + b;
      PresentAppend(a[1..], b);
    }
  }

  /** A string as the one-character strings Python yields when iterating over it. */
  function Chars(s: string): (r: seq<string>)
    ensures |r| == |s|
    ensures forall i :: 0 <= i < |s| ==> r[i] == [s[i]]
  {
    if |s| == 0 then [] else [[s[0]]] + Chars(s[1..])
  }

  /**
    The strings a `for` loop, `len`, indexing or `", ".join` sees in a
    value: a list's items or a string's characters; None for the kinds
    Python refuses to iterate (a TypeError).
   */
  function AsList(v: Value): (r: Option<seq<string>>)
    ensures v.Strs? ==> r == Some(v.items)
    ensures v.Str? ==> r == Some(Chars(v.s))
    ensures (v.Nil? || v.Num? || v.Flag?) <==> r.None?
    ensures r.Some? ==> (Truthy(v) <==> |r.value| > 0)
  {
    match v
    case Strs(xs) => Some(xs)
    case Str(s) => Some(Chars(s))
    case _ => None
  }
}
