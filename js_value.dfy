/** The JavaScript values the engine reads: policies, statements, request
    fields, context maps and condition operands. */
module JsValue {
  import opened Results

  /** A JSON-like JavaScript value. Numbers are integers; an object is the
      ordered list of its own properties (the order `Object.keys` reports). */
  datatype Value =
    | Undef
    | Null
    | Bool(b: bool)
    | Num(n: int)
    | Str(s: string)
    | Arr(elems: seq<Value>)
    | Obj(props: seq<Prop>)

  datatype Prop = Prop(key: string, val: Value)

  /** JavaScript truthiness, as `if`, `!` and the callbacks of `find` and
      `every` apply it. */
  predicate Truthy(v: Value) {
    match v
    case Undef => false
    case Null => false
    case Bool(b) => b
    case Num(n) => n != 0
    case Str(s) => s != ""
    case Arr(_) => true
    case Obj(_) => true
  }

  /** lodash `isEmpty`: empty strings, arrays and objects, and every
      number, boolean, null and undefined. */
  predicate IsEmpty(v: Value) {
    match v
    case Str(s) => s == ""
    case Arr(e) => e == []
    case Obj(p) => p == []
    case _ => true
  }

  /** The value of property `k` of an object, or undefined when it has none. */
  function Lookup(props: seq<Prop>, k: string): (r: Value)
    ensures r != Undef ==> exists i :: 0 <= i < |props| && props[i].key == k && props[i].val == r
  {
    if props == [] then Undef
    else if props[0].key == k then props[0].val
    else Lookup(props[1..], k)
  }

  /** No key occurs twice, as in every object JavaScript builds. */
  predicate DistinctKeys(props: seq<Prop>) {
    forall i, j :: 0 <= i < j < |props| ==> props[i].key != props[j].key
  }

  /** With distinct keys, each property is what its key reads. */
  lemma {:induction false} LookupDistinct(props: seq<Prop>, i: nat)
    requires DistinctKeys(props) && i < |props|
    ensures Lookup(props, props[i].key) == props[i].val
  {
    if i > 0 {
      assert props[0].key != props[i].key;
      assert DistinctKeys(props[1..]) by {
        forall a, b | 0 <= a < b < |props[1..]| ensures props[1..][a].key != props[1..][b].key {
          assert props[1..][a] == props[a + 1] && props[1..][b] == props[b + 1];
        }
      }
      LookupDistinct(props[1..], i - 1);
    }
  }

  /** `Object.keys` of an object. */
  function Keys(props: seq<Prop>): (ks: seq<string>)
    ensures |ks| == |props|
    ensures forall i :: 0 <= i < |props| ==> ks[i] == props[i].key
  {
    seq(|props|, i requires 0 <= i < |props| => props[i].key)
  }

  /** The keys of a one-property object. */
  lemma KeysOfOne(k: string, v: Value)
    ensures Keys([Prop(k, v)]) == [k]
  {
    assert Keys([Prop(k, v)])[0] == k;
  }

  /** The JavaScript expression `v[k]`: reading a property of undefined or
      null throws; an array or a string has its elements or characters
      under their decimal indices, and its `length`; other primitives have
      none of the property names the engine reads. */
  function Get(v: Value, k: string): (r: Result<Value>)
    ensures r.Err? <==> v.Undef? || v.Null?
    ensures v.Obj? ==> r == Ok(Lookup(v.props, k))
    ensures !v.Obj? && !v.Arr? && !v.Str? && r.Ok? ==> r.value == Undef
    ensures !v.Obj? && r.Ok? && k != "length" && (k == [] || !IsDigit(k[0])) ==> r.value == Undef
  {
    match v
    case Undef => Err("TypeError: Cannot read property '" + k + "' of undefined")
    case Null => Err("TypeError: Cannot read property '" + k + "' of null")
    case Obj(p) => Ok(Lookup(p, k))
    case Arr(e) =>
      if IsLengthKey(k) then Ok(Num(|e|))
      else (match IndexBelow(k, |e|) case Some(i) => Ok(e[i]) case None => Ok(Undef))
    case Str(t) =>
      if IsLengthKey(k) then Ok(Num(|t|))
      else (match IndexBelow(k, |t|) case Some(i) => Ok(Str([t[i]])) case None => Ok(Undef))
    case _ => Ok(Undef)
  }

  /** `k` is `"length"`, spelt out character by character. */
  predicate IsLengthKey(k: string)
    ensures IsLengthKey(k) <==> k == "length"
  {
    |k| == 6 && k[0] == 'l' && k[1] == 'e' && k[2] == 'n' && k[3] == 'g' && k[4] == 't' && k[5] == 'h'
  }

  /** The index below `n` whose decimal text is the property name `k`. */
  function IndexBelow(k: string, n: nat): (r: Option<nat>)
    ensures r.Some? ==> r.value < n && NatText(r.value) == k
  {
    if n == 0 then None
    else if NatText(n - 1) == k then Some(n - 1)
    else IndexBelow(k, n - 1)
  }

  /** Every index below `n` is found by its decimal text. */
  lemma {:induction false} IndexBelowFinds(i: nat, n: nat)
    requires i < n
    ensures IndexBelow(NatText(i), n) == Some(i)
  {
    if NatText(n - 1) == NatText(i) {
      NatTextInjective(n - 1, i);
    } else {
      IndexBelowFinds(i, n - 1);
    }
  }

  /** Element `i` of an array, and character `i` of a string, is what the
      decimal text of `i` reads; a name that is no index reads nothing. */
  lemma IndexRead(v: Value, i: nat)
    ensures v.Arr? && i < |v.elems| ==> Get(v, NatText(i)) == Ok(v.elems[i])
    ensures v.Str? && i < |v.s| ==> Get(v, NatText(i)) == Ok(Str([v.s[i]]))
  {
    DigitsOnly(i);
    assert 'l' !in NatText(i);
    assert NatText(i) != "length" by { assert "length"[0] == 'l'; }
    if v.Arr? && i < |v.elems| {
      IndexBelowFinds(i, |v.elems|);
    }
    if v.Str? && i < |v.s| {
      IndexBelowFinds(i, |v.s|);
    }
  }

  /** `v[k]` where `v` is known not to be undefined or null, and lodash's
      property accessor (`map('Statement')`, `pluck`), which gives undefined
      for those two instead of throwing. */
  function SafeGet(v: Value, k: string): (r: Value)
    ensures v.Undef? || v.Null? ==> r.Undef?
    ensures !v.Undef? && !v.Null? ==> Ok(r) == Get(v, k)
  {
    if v.Undef? || v.Null? then Undef else Get(v, k).value
  }

  /** `Object.keys(v)`: throws on undefined and null. */
  function OwnKeys(v: Value): (r: Result<seq<string>>)
    ensures r.Err? <==> v.Undef? || v.Null?
    ensures v.Obj? ==> r == Ok(Keys(v.props))
  {
    match v
    case Undef => Err("TypeError: Cannot convert undefined or null to object")
    case Null => Err("TypeError: Cannot convert undefined or null to object")
    case Obj(p) => Ok(Keys(p))
    case _ => Ok([])
  }

  /** `isArray(v) ? v : [v]`. */
  function Wrap(v: Value): (r: seq<Value>)
    ensures v.Arr? ==> r == v.elems
    ensures !v.Arr? ==> r == [v]
  {
    if v.Arr? then v.elems else [v]
  }

  predicate IsDigit(c: char) {
    '0' <= c <= '9'
  }

  function DigitText(d: nat): (c: char)
    requires d < 10
    ensures IsDigit(c)
  {
    "0123456789"[d]
  }

  function NatText(n: nat): (s: string)
    ensures |s| > 0
    ensures n >= 10 ==> |s| >= 2
    ensures IsDigit(s[0])
    decreases n
  {
    if n < 10 then [DigitText(n)] else NatText(n / 10) + [DigitText(n % 10)]
  }

  /** The decimal text of a number is made of digits only. */
  lemma {:induction false} DigitsOnly(n: nat)
    ensures forall c :: c in NatText(n) ==> c in "0123456789"
    decreases n
  {
    if n >= 10 {
      DigitsOnly(n / 10);
    }
  }

  /** Two numbers with the same decimal text are the same number. */
  lemma {:induction false} NatTextInjective(a: nat, b: nat)
    requires NatText(a) == NatText(b)
    ensures a == b
    decreases a
  {
    var t := NatText(a);
    if a >= 10 && b >= 10 {
      assert NatText(a / 10) == t[..|t| - 1] == NatText(b / 10);
      assert DigitText(a % 10) == t[|t| - 1] == DigitText(b % 10);
      NatTextInjective(a / 10, b / 10);
    } else if a < 10 && b < 10 {
      assert DigitText(a) == t[0] == DigitText(b);
    }
  }

  function Join(parts: seq<string>, sep: string): string {
    if parts == [] then ""
    else if |parts| == 1 then parts[0]
    else parts[0] + sep + Join(parts[1..], sep)
  }

  /** `String(v)`: the text a regular expression tests and a `replace`
      callback's result becomes. */
  function JsText(v: Value): string {
    match v
    case Undef => "undefined"
    case Null => "null"
    case Bool(b) => if b then "true" else "false"
    case Num(n) => if n < 0 then "-" + NatText(-n) else NatText(n)
    case Str(s) => s
    case Arr(e) =>
      Join(seq(|e|, i requires 0 <= i < |e| =>
             if e[i].Undef? || e[i].Null? then "" else JsText(e[i])), ",")
    case Obj(_) => "[object Object]"
  }
}
