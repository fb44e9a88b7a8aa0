/**
  The part of PHP's value semantics that the statement builders of the
  `Database` class rely on: the values a caller can pass, PHP arrays as
  ordered key/value tables, string conversion (what `.` and `implode` do to
  a value) and the loose comparison `$x == null`.
*/
module Php {

  /** An array key after PHP's normalisation: an integer or a string. */
  datatype Key = IntKey(i: int) | StrKey(s: string)

  /** A PHP value. A float carries its string form and whether it is zero,
      because float formatting is not part of this model. */
  datatype Value =
    | Null
    | Bool(b: bool)
    | Int(i: int)
    | Float(rendered: string, isZero: bool)
    | Str(s: string)
    | Arr(entries: seq<Entry>)

  /** One slot of a PHP array; the array keeps its slots in insertion order. */
  datatype Entry = Entry(key: Key, val: Value)

  /** A PHP array never holds the same key twice. */
  ghost predicate DistinctKeys(entries: seq<Entry>)
  {
    forall p, q :: 0 <= p < q < |entries| ==> entries[p].key != entries[q].key
  }

  /** The array literal `[v0, v1, ...]`: keys 0, 1, ... in order. */
  function List(vs: seq<Value>): (entries: seq<Entry>)
    ensures |entries| == |vs|
    ensures forall p :: 0 <= p < |vs| ==> entries[p] == Entry(IntKey(p), vs[p])
    ensures DistinctKeys(entries)
  {
    seq(|vs|, p requires 0 <= p < |vs| => Entry(IntKey(p), vs[p]))
  }

  function Digit(d: nat): char
    requires d < 10
  {
    "0123456789"[d]
  }

  /** Decimal form of a natural number, most significant digit first. */
  function NatToString(n: nat): (s: string)
    ensures |s| > 0
    ensures forall c :: c in s ==> '0' <= c <= '9'
    decreases n
  {
    if n < 10 then [Digit(n)] else NatToString(n / 10) + [Digit(n % 10)]
  }

  /** PHP's decimal rendering of an integer. */
  function IntToString(i: int): (s: string)
    ensures |s| > 0 && (s[0] == '-' <==> i < 0)
    ensures i >= 0 ==> forall c :: c in s ==> '0' <= c <= '9'
  {
    if i < 0 then "-" + NatToString(-i)
    else
      var d := NatToString(i);
      assert d[0] in d;
      d
  }

  /** PHP's boolean conversion: the falsy values are null, false, 0, 0.0,
      "", "0" and the empty array. */
  predicate Truthy(v: Value)
  {
    match v
    case Null => false
    case Bool(b) => b
    case Int(i) => i != 0
    case Float(_, z) => !z
    case Str(s) => s != "" && s != "0"
    case Arr(es) => es != []
  }

  /** The loose comparison `$v == null`. Following PHP's comparison table, a
      string is compared with null by turning null into "" and comparing the
      two strings (so "0" is not equal to null); any other value is compared
      by converting both sides to bool. */
  predicate NullLike(v: Value)
  {
    if v.Str? then v.s == "" else !Truthy(v)
  }

  /** The values equal to null under `==` are exactly null, false, 0, 0.0,
      "" and the empty array; in particular "0" is not among them. */
  lemma NullLikeValues(v: Value)
    ensures NullLike(v) <==>
      v == Null || v == Bool(false) || v == Int(0) || (v.Float? && v.isZero) ||
      v == Str("") || v == Arr([])
    ensures !NullLike(Str("0"))
  {
  }

  /** String conversion, as done by `.` and by `implode` on each element.
      An array converts to the word "Array". */
  function Render(v: Value): string
  {
    match v
    case Null => ""
    case Bool(b) => if b then "1" else ""
    case Int(i) => IntToString(i)
    case Float(r, _) => r
    case Str(s) => s
    case Arr(_) => "Array"
  }

  /** Only null, false, "" and a float rendered as "" convert to the empty
      string; an integer converts to a non-empty decimal, with a leading '-'
      exactly when it is negative. */
  lemma RenderProperties(v: Value)
    ensures Render(v) == "" <==>
      v == Null || v == Bool(false) || v == Str("") || (v.Float? && v.rendered == "")
    ensures v.Int? && v.i >= 0 ==> forall c :: c in Render(v) ==> '0' <= c <= '9'
    ensures v.Int? ==> (Render(v)[0] == '-' <==> v.i < 0)
  {
  }

  /** String conversion of an array key, as done by `.` on a `foreach` key. */
  function RenderKey(k: Key): string
  {
    match k
    case IntKey(i) => IntToString(i)
    case StrKey(s) => s
  }

  /** The strings `xs` glued together with `sep` between neighbours. */
  function Join(sep: string, xs: seq<string>): (r: string)
  {
    if |xs| == 0 then ""
    else if |xs| == 1 then xs[0]
    else xs[0] + sep + Join(sep, xs[1..])
  }

  /** A join starts with its first string and ends with its last. */
  lemma {:induction false} JoinEnds(sep: string, xs: seq<string>)
    requires xs != []
    ensures |xs[0]| <= |Join(sep, xs)| && Join(sep, xs)[..|xs[0]|] == xs[0]
    ensures |xs[|xs| - 1]| <= |Join(sep, xs)| && Join(sep, xs)[|Join(sep, xs)| - |xs[|xs| - 1]|..] == xs[|xs| - 1]
  {
    if |xs| > 1 {
      JoinEnds(sep, xs[1..]);
      var t := Join(sep, xs[1..]);
      assert Join(sep, xs) == (xs[0] + sep) + t;
      assert xs[1..][|xs[1..]| - 1] == xs[|xs| - 1];
    }
  }

  /** `implode(sep, $array)`: the array's values converted to strings and
      joined in iteration order. */
  function Implode(sep: string, entries: seq<Entry>): string
  {
    Join(sep, seq(|entries|, p requires 0 <= p < |entries| => Render(entries[p].val)))
  }

  /** Joining one more string puts exactly one separator before it. */
  lemma {:induction false} JoinSnoc(sep: string, xs: seq<string>, x: string)
    ensures Join(sep, xs + [x]) == if xs == [] then x else Join(sep, xs) + sep + x
  {
    if |xs| > 1 {
      assert (xs + [x])[1..] == xs[1..] + [x];
      JoinSnoc(sep, xs[1..], x);
    } else if |xs| == 1 {
      assert (xs + [x])[1..] == [x];
    }
  }

  lemma JoinPair(sep: string, a: string, b: string)
    ensures Join(sep, [a, b]) == a + sep + b
  {
  }

  lemma JoinTriple(sep: string, a: string, b: string, c: string)
    ensures Join(sep, [a, b, c]) == a + sep + b + sep + c
  {
    assert [a, b, c][1..] == [b, c];
    JoinPair(sep, b, c);
  }
}
