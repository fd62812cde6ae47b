/** The operator table of conditions.js: the base operators (lines 16-149)
    and the pass at lines 152-174 that gives every one of them an
    `IfExists`, a `ForAllValues:` and a `ForAnyValue:` variant. The pass
    mutates the shared table in place; here the finished table is a lookup
    from operator name to operator. */
module Registry {
  import opened Results
  import J = JsValue
  import C = Conditions
  import opened Finds

  type Value = J.Value

  /** The base operators, named as in the source table. */
  datatype BaseOp =
    | NumericEquals | NumericNotEquals | NumericLessThan | NumericGreaterThanEquals
    | NumericGreaterThan | NumericLessThanEquals
    | DateEquals | DateNotEquals | DateLessThan | DateGreaterThanEquals
    | DateGreaterThan | DateLessThanEquals
    | BinaryEquals | BinaryNotEquals
    | ArnLike | ArnNotLike | ArnEquals | ArnNotEquals
    | Null | IpAddress | NotIpAddress
    | StringEquals | StringNotEquals | StringEqualsIgnoreCase | StringNotEqualsIgnoreCase
    | StringLike | StringNotLike
    | Bool

  function Name(op: BaseOp): string {
    match op
    case NumericEquals => "NumericEquals"
    case NumericNotEquals => "NumericNotEquals"
    case NumericLessThan => "NumericLessThan"
    case NumericGreaterThanEquals => "NumericGreaterThanEquals"
    case NumericGreaterThan => "NumericGreaterThan"
    case NumericLessThanEquals => "NumericLessThanEquals"
    case DateEquals => "DateEquals"
    case DateNotEquals => "DateNotEquals"
    case DateLessThan => "DateLessThan"
    case DateGreaterThanEquals => "DateGreaterThanEquals"
    case DateGreaterThan => "DateGreaterThan"
    case DateLessThanEquals => "DateLessThanEquals"
    case BinaryEquals => "BinaryEquals"
    case BinaryNotEquals => "BinaryNotEquals"
    case ArnLike => "ArnLike"
    case ArnNotLike => "ArnNotLike"
    case ArnEquals => "ArnEquals"
    case ArnNotEquals => "ArnNotEquals"
    case Null => "Null"
    case IpAddress => "IpAddress"
    case NotIpAddress => "NotIpAddress"
    case StringEquals => "StringEquals"
    case StringNotEquals => "StringNotEquals"
    case StringEqualsIgnoreCase => "StringEqualsIgnoreCase"
    case StringNotEqualsIgnoreCase => "StringNotEqualsIgnoreCase"
    case StringLike => "StringLike"
    case StringNotLike => "StringNotLike"
    case Bool => "Bool"
  }

  /** The base operator starting with `N` (the Numeric family, Null or NotIpAddress) named `name`, if any. */
  function ByNameN(name: string): (r: Option<BaseOp>)
    ensures r.Some? ==> Name(r.value) == name
  {
    if name == "NumericEquals" then Some(NumericEquals) else
    if name == "NumericNotEquals" then Some(NumericNotEquals) else
    if name == "NumericLessThan" then Some(NumericLessThan) else
    if name == "NumericGreaterThanEquals" then Some(NumericGreaterThanEquals) else
    if name == "NumericGreaterThan" then Some(NumericGreaterThan) else
    if name == "NumericLessThanEquals" then Some(NumericLessThanEquals) else
    if name == "Null" then Some(Null) else
    if name == "NotIpAddress" then Some(NotIpAddress) else
    None
  }

  /** The base operator starting with `D` (the Date family) named `name`, if any. */
  function ByNameD(name: string): (r: Option<BaseOp>)
    ensures r.Some? ==> Name(r.value) == name
  {
    if name == "DateEquals" then Some(DateEquals) else
    if name == "DateNotEquals" then Some(DateNotEquals) else
    if name == "DateLessThan" then Some(DateLessThan) else
    if name == "DateGreaterThanEquals" then Some(DateGreaterThanEquals) else
    if name == "DateGreaterThan" then Some(DateGreaterThan) else
    if name == "DateLessThanEquals" then Some(DateLessThanEquals) else
    None
  }

  /** The base operator starting with `B` (the Binary family or Bool) named `name`, if any. */
  function ByNameB(name: string): (r: Option<BaseOp>)
    ensures r.Some? ==> Name(r.value) == name
  {
    if name == "BinaryEquals" then Some(BinaryEquals) else
    if name == "BinaryNotEquals" then Some(BinaryNotEquals) else
    if name == "Bool" then Some(Bool) else
    None
  }

  /** The base operator starting with `A` (the Arn family) named `name`, if any. */
  function ByNameA(name: string): (r: Option<BaseOp>)
    ensures r.Some? ==> Name(r.value) == name
  {
    if name == "ArnLike" then Some(ArnLike) else
    if name == "ArnNotLike" then Some(ArnNotLike) else
    if name == "ArnEquals" then Some(ArnEquals) else
    if name == "ArnNotEquals" then Some(ArnNotEquals) else
    None
  }

  /** The base operator starting with `I` (the IpAddress) named `name`, if any. */
  function ByNameI(name: string): (r: Option<BaseOp>)
    ensures r.Some? ==> Name(r.value) == name
  {
    if name == "IpAddress" then Some(IpAddress) else
    None
  }

  /** The base operator starting with `S` (the String family) named `name`, if any. */
  function ByNameS(name: string): (r: Option<BaseOp>)
    ensures r.Some? ==> Name(r.value) == name
  {
    if name == "StringEquals" then Some(StringEquals) else
    if name == "StringNotEquals" then Some(StringNotEquals) else
    ByNameLike(name)
  }

  /** The two string pattern operators. */
  function ByNameLike(name: string): (r: Option<BaseOp>)
    ensures r.Some? ==> Name(r.value) == name
  {
    if name == "StringLike" then Some(StringLike) else
    if name == "StringNotLike" then Some(StringNotLike) else
    ByNameIgnoreCase(name)
  }

  /** The two case-insensitive string operators. */
  function ByNameIgnoreCase(name: string): (r: Option<BaseOp>)
    ensures r.Some? ==> Name(r.value) == name
  {
    if name == "StringEqualsIgnoreCase" then Some(StringEqualsIgnoreCase) else
    if name == "StringNotEqualsIgnoreCase" then Some(StringNotEqualsIgnoreCase) else
    None
  }

  /** The base operator registered under `name`, if any; the first
      character picks the group of names to compare against. */
  function ByName(name: string): (r: Option<BaseOp>)
    ensures r.Some? ==> Name(r.value) == name
  {
    if name == [] then None
    else match name[0]
      case 'N' => ByNameN(name)
      case 'D' => ByNameD(name)
      case 'B' => ByNameB(name)
      case 'A' => ByNameA(name)
      case 'I' => ByNameI(name)
      case 'S' => ByNameS(name)
      case _ => None
  }

  /** The four entries each base operator has in the finished table. */
  datatype Variant = Plain | IfExists | ForAllValues | ForAnyValue

  const AllValuesPrefix: string := "ForAllValues:"
  const AnyValuePrefix: string := "ForAnyValue:"
  const IfExistsSuffix: string := "IfExists"

  /** The name under which `base` is registered in variant `v`. */
  function Decorate(base: string, v: Variant): string {
    match v
    case Plain => base
    case IfExists => base + IfExistsSuffix
    case ForAllValues => AllValuesPrefix + base
    case ForAnyValue => AnyValuePrefix + base
  }

  function OperatorName(op: BaseOp, v: Variant): string {
    Decorate(Name(op), v)
  }

  /** Lookup in the finished built-in table. */
  function Builtin(name: string): Option<(BaseOp, Variant)> {
    if |name| >= |AllValuesPrefix| && name[..|AllValuesPrefix|] == AllValuesPrefix then
      match ByName(name[|AllValuesPrefix|..])
      case Some(op) => Some((op, ForAllValues))
      case None => None
    else if |name| >= |AnyValuePrefix| && name[..|AnyValuePrefix|] == AnyValuePrefix then
      match ByName(name[|AnyValuePrefix|..])
      case Some(op) => Some((op, ForAnyValue))
      case None => None
    else if |name| >= |IfExistsSuffix| && name[|name| - |IfExistsSuffix|..] == IfExistsSuffix then
      match ByName(name[..|name| - |IfExistsSuffix|])
      case Some(op) => Some((op, IfExists))
      case None => None
    else
      match ByName(name)
      case Some(op) => Some((op, Plain))
      case None => None
  }

  /** The first character of a base name, which picks the group `ByName`
      searches. */
  function Initial(op: BaseOp): char {
    match op
    case NumericEquals => 'N'
    case NumericNotEquals => 'N'
    case NumericLessThan => 'N'
    case NumericGreaterThanEquals => 'N'
    case NumericGreaterThan => 'N'
    case NumericLessThanEquals => 'N'
    case DateEquals => 'D'
    case DateNotEquals => 'D'
    case DateLessThan => 'D'
    case DateGreaterThanEquals => 'D'
    case DateGreaterThan => 'D'
    case DateLessThanEquals => 'D'
    case BinaryEquals => 'B'
    case BinaryNotEquals => 'B'
    case ArnLike => 'A'
    case ArnNotLike => 'A'
    case ArnEquals => 'A'
    case ArnNotEquals => 'A'
    case Null => 'N'
    case IpAddress => 'I'
    case NotIpAddress => 'N'
    case StringEquals => 'S'
    case StringNotEquals => 'S'
    case StringEqualsIgnoreCase => 'S'
    case StringNotEqualsIgnoreCase => 'S'
    case StringLike => 'S'
    case StringNotLike => 'S'
    case Bool => 'B'
  }

  /** A base name that cannot be mistaken for a name carrying the
      `IfExists` suffix. */
  predicate SuffixFree(base: string) {
    |base| < |IfExistsSuffix| || base[|base| - |IfExistsSuffix|] != 'I'
  }

  /** Every base name is found under itself. */
  lemma NameIsFound(op: BaseOp)
    ensures ByName(Name(op)) == Some(op)
  {
    NameGroup(op);
  }

  /** No base name starts with the `F` of the quantifier prefixes or has
      the `I` of the IfExists suffix where that suffix would begin, so the
      four names of an operator are told apart by their shape. */
  lemma NameShape(op: BaseOp)
    ensures |Name(op)| > 0 && Name(op)[0] != 'F'
    ensures SuffixFree(Name(op))
  {
    NameGroup(op);
  }

  lemma NameGroup(op: BaseOp)
    ensures |Name(op)| > 0 && Name(op)[0] == Initial(op)
    ensures ByName(Name(op)) == Some(op)
    ensures SuffixFree(Name(op))
  {
    var c := Initial(op);
    if c == 'N' {
      GroupN(op);
    } else if c == 'D' {
      GroupD(op);
    } else if c == 'B' {
      GroupB(op);
    } else if c == 'A' {
      GroupA(op);
    } else if c == 'I' {
      GroupI(op);
    } else {
      GroupS(op);
    }
  }

  lemma GroupN(op: BaseOp)
    requires Initial(op) == 'N'
    ensures |Name(op)| > 0 && Name(op)[0] == 'N'
    ensures ByNameN(Name(op)) == Some(op)
    ensures SuffixFree(Name(op))
  {
  }

  lemma GroupD(op: BaseOp)
    requires Initial(op) == 'D'
    ensures |Name(op)| > 0 && Name(op)[0] == 'D'
    ensures ByNameD(Name(op)) == Some(op)
    ensures SuffixFree(Name(op))
  {
  }

  lemma GroupB(op: BaseOp)
    requires Initial(op) == 'B'
    ensures |Name(op)| > 0 && Name(op)[0] == 'B'
    ensures ByNameB(Name(op)) == Some(op)
    ensures SuffixFree(Name(op))
  {
  }

  lemma GroupA(op: BaseOp)
    requires Initial(op) == 'A'
    ensures |Name(op)| > 0 && Name(op)[0] == 'A'
    ensures ByNameA(Name(op)) == Some(op)
    ensures SuffixFree(Name(op))
  {
  }

  lemma GroupI(op: BaseOp)
    requires Initial(op) == 'I'
    ensures |Name(op)| > 0 && Name(op)[0] == 'I'
    ensures ByNameI(Name(op)) == Some(op)
    ensures SuffixFree(Name(op))
  {
  }

  lemma GroupS(op: BaseOp)
    requires Initial(op) == 'S'
    ensures |Name(op)| > 0 && Name(op)[0] == 'S'
    ensures ByNameS(Name(op)) == Some(op)
    ensures SuffixFree(Name(op))
  {
  }

  /** A decorated base name is looked up as that base operator in that
      variant, as long as the base name cannot be mistaken for a prefix or
      suffix. */
  lemma DecoratedIsFound(base: string, op: BaseOp, v: Variant)
    requires ByName(base) == Some(op)
    requires base != [] && base[0] != 'F'
    requires SuffixFree(base)
    ensures Builtin(Decorate(base, v)) == Some((op, v))
  {
    match v
    case Plain => PlainIsFound(base, op);
    case IfExists => IfExistsIsFound(base, op);
    case ForAllValues => AllValuesIsFound(base, op);
    case ForAnyValue => AnyValueIsFound(base, op);
  }

  lemma PlainIsFound(base: string, op: BaseOp)
    requires ByName(base) == Some(op)
    requires base != [] && base[0] != 'F'
    requires SuffixFree(base)
    ensures Builtin(base) == Some((op, Plain))
  {
    NotPrefixed(base);
    NotSuffixed(base);
  }

  /** A name without the `I` where the suffix would begin does not carry
      the IfExists suffix. */
  lemma NotSuffixed(name: string)
    requires SuffixFree(name)
    ensures !(|name| >= |IfExistsSuffix| && name[|name| - |IfExistsSuffix|..] == IfExistsSuffix)
  {
    if |name| >= |IfExistsSuffix| {
      assert name[|name| - |IfExistsSuffix|..][0] != IfExistsSuffix[0];
    }
  }

  /** A name that does not start with `F` carries neither quantifier prefix. */
  lemma NotPrefixed(name: string)
    requires name != [] && name[0] != 'F'
    ensures !(|name| >= |AllValuesPrefix| && name[..|AllValuesPrefix|] == AllValuesPrefix)
    ensures !(|name| >= |AnyValuePrefix| && name[..|AnyValuePrefix|] == AnyValuePrefix)
  {
    if |name| >= |AnyValuePrefix| {
      assert name[..|AnyValuePrefix|][0] != AnyValuePrefix[0];
    }
    if |name| >= |AllValuesPrefix| {
      assert name[..|AllValuesPrefix|][0] != AllValuesPrefix[0];
    }
  }

  lemma IfExistsIsFound(base: string, op: BaseOp)
    requires ByName(base) == Some(op)
    requires base != [] && base[0] != 'F'
    requires SuffixFree(base)
    ensures Builtin(base + IfExistsSuffix) == Some((op, IfExists))
  {
    Suffixed(base);
    NotPrefixed(base + IfExistsSuffix);
  }

  lemma Suffixed(base: string)
    ensures var n := base + IfExistsSuffix;
      n[|n| - |IfExistsSuffix|..] == IfExistsSuffix && n[..|n| - |IfExistsSuffix|] == base
    ensures base != [] ==> (base + IfExistsSuffix)[0] == base[0]
  {
    var n := base + IfExistsSuffix;
    assert n[|n| - |IfExistsSuffix|..] == IfExistsSuffix;
    assert n[..|n| - |IfExistsSuffix|] == base;
  }

  lemma AllValuesIsFound(base: string, op: BaseOp)
    requires ByName(base) == Some(op)
    ensures Builtin(AllValuesPrefix + base) == Some((op, ForAllValues))
  {
    var n := AllValuesPrefix + base;
    assert n[..|AllValuesPrefix|] == AllValuesPrefix;
    assert n[|AllValuesPrefix|..] == base;
  }

  lemma AnyValueIsFound(base: string, op: BaseOp)
    requires ByName(base) == Some(op)
    ensures Builtin(AnyValuePrefix + base) == Some((op, ForAnyValue))
  {
    var n := AnyValuePrefix + base;
    assert !(|n| >= |AllValuesPrefix| && n[..|AllValuesPrefix|] == AllValuesPrefix) by {
      if |n| >= |AllValuesPrefix| {
        assert n[11] == ':' && AllValuesPrefix[11] == 's';
      }
    }
    assert n[..|AnyValuePrefix|] == AnyValuePrefix;
    assert n[|AnyValuePrefix|..] == base;
  }

  /** Whatever the table finds under `name` is registered under exactly
      that name. */
  lemma FoundIsDecorated(name: string, op: BaseOp, v: Variant)
    requires Builtin(name) == Some((op, v))
    ensures name == OperatorName(op, v)
  {
    match v
    case Plain =>
    case IfExists => FoundIfExists(name, op);
    case ForAllValues => FoundAllValues(name, op);
    case ForAnyValue => FoundAnyValue(name, op);
  }

  lemma FoundIfExists(name: string, op: BaseOp)
    requires Builtin(name) == Some((op, IfExists))
    ensures name == Name(op) + IfExistsSuffix
  {
    assert name == name[..|name| - |IfExistsSuffix|] + name[|name| - |IfExistsSuffix|..];
  }

  lemma FoundAllValues(name: string, op: BaseOp)
    requires Builtin(name) == Some((op, ForAllValues))
    ensures name == AllValuesPrefix + Name(op)
  {
    assert name == name[..|AllValuesPrefix|] + name[|AllValuesPrefix|..];
  }

  lemma FoundAnyValue(name: string, op: BaseOp)
    requires Builtin(name) == Some((op, ForAnyValue))
    ensures name == AnyValuePrefix + Name(op)
  {
    assert name == name[..|AnyValuePrefix|] + name[|AnyValuePrefix|..];
  }

  /** Every base operator gets exactly its three derived entries, and the
      table holds nothing else: a name is registered iff it is one of the
      four names of a base operator, and it then denotes that operator in
      that variant. */
  lemma TableIsDerived(op: BaseOp, v: Variant, name: string)
    ensures Builtin(OperatorName(op, v)) == Some((op, v))
    ensures Builtin(name) == Some((op, v)) ==> name == OperatorName(op, v)
  {
    NameIsFound(op);
    NameShape(op);
    DecoratedIsFound(Name(op), op, v);
    if Builtin(name) == Some((op, v)) {
      FoundIsDecorated(name, op, v);
    }
  }

  /** The answer of a base operator's function. ArnNotEquals is given its
      intended answer here; that as written it throws on every string
      pattern is `CallBase`'s business. */
  function Semantics(host: C.Host, op: BaseOp): (Value, Value) -> bool {
    match op
    case NumericEquals => C.NumericEquals
    case NumericNotEquals => C.NumericNotEquals
    case NumericLessThan => C.NumericLessThan
    case NumericGreaterThanEquals => C.NumericGreaterThanEquals
    case NumericGreaterThan => C.NumericGreaterThan
    case NumericLessThanEquals => C.NumericLessThanEquals
    case DateEquals => (a, b) => C.DateEquals(host, a, b)
    case DateNotEquals => (a, b) => C.DateNotEquals(host, a, b)
    case DateLessThan => (a, b) => C.DateLessThan(host, a, b)
    case DateGreaterThanEquals => (a, b) => C.DateGreaterThanEquals(host, a, b)
    case DateGreaterThan => (a, b) => C.DateGreaterThan(host, a, b)
    case DateLessThanEquals => (a, b) => C.DateLessThanEquals(host, a, b)
    case BinaryEquals => (a, b) => C.BinaryEquals(host, a, b)
    case BinaryNotEquals => (a, b) => C.BinaryNotEquals(host, a, b)
    case ArnLike => C.ArnLike
    case ArnNotLike => C.ArnNotLike
    case ArnEquals => C.ArnEquals
    case ArnNotEquals => C.ArnNotEqualsIntended
    case Null => C.Null
    case IpAddress => (a, b) => C.IpAddress(host, a, b)
    case NotIpAddress => (a, b) => C.NotIpAddress(host, a, b)
    case StringEquals => C.StringEquals
    case StringNotEquals => C.StringNotEquals
    case StringEqualsIgnoreCase => (a, b) => C.StringEqualsIgnoreCase(host, a, b)
    case StringNotEqualsIgnoreCase => (a, b) => C.StringNotEqualsIgnoreCase(host, a, b)
    case StringLike => C.StringLike
    case StringNotLike => C.StringNotLike
    case Bool => C.Bool
  }

  /** What `fn.call(this, a, b)` returns for a base operator when it
      returns. */
  function ApplyBase(host: C.Host, op: BaseOp, a: Value, b: Value): bool {
    Semantics(host, op)(a, b)
  }

  /** The one base operator that throws: ArnNotEquals on a string pattern. */
  predicate Throws(op: BaseOp, b: Value) {
    op == ArnNotEquals && b.Str?
  }

  /** Some policy value makes the base call throw. */
  predicate SomeThrows(op: BaseOp, ys: seq<Value>) {
    exists j :: 0 <= j < |ys| && Throws(op, ys[j])
  }

  /** `fn.call(this, a, b)` for a base operator, exceptions included: it
      throws exactly when `Throws` says, and otherwise returns `ApplyBase`. */
  function CallBase(host: C.Host, op: BaseOp, a: Value, b: Value): (r: Result<bool>)
    ensures r.Err? <==> Throws(op, b)
    ensures r.Ok? ==> r.value == ApplyBase(host, op, a, b)
  {
    if op == ArnNotEquals then C.ArnNotEquals(a, b) else Ok(ApplyBase(host, op, a, b))
  }

  /** `b.find(key => fn(x, key))`: the index of the first policy value the
      operator accepts for the request value `x`. */
  function FirstMatch(host: C.Host, op: BaseOp, x: Value, ys: seq<Value>): (r: Option<nat>)
    ensures r.Some? ==> r.value < |ys| && ApplyBase(host, op, x, ys[r.value])
    ensures r.Some? ==> forall j :: 0 <= j < r.value ==> !ApplyBase(host, op, x, ys[j])
    ensures r.None? <==> forall j :: 0 <= j < |ys| ==> !ApplyBase(host, op, x, ys[j])
  {
    FindIndex(ys, y => ApplyBase(host, op, x, y))
  }

  /** `b.find(...)` tested for truthiness: the FIRST policy value that
      satisfies the operator must be truthy. */
  predicate MatchedBy(host: C.Host, op: BaseOp, x: Value, ys: seq<Value>) {
    var i := FirstMatch(host, op, x, ys);
    i.Some? && J.Truthy(ys[i.value])
  }

  /** `!!b.find(key => fn.call(this, x, key))` with the exception of the
      first call that throws before any is accepted. */
  function Matched(host: C.Host, op: BaseOp, x: Value, ys: seq<Value>): Result<bool> {
    match FindR(ys, y => CallBase(host, op, x, y))
    case Err(e) => Err(e)
    case Ok(None) => Ok(false)
    case Ok(Some(i)) => Ok(J.Truthy(ys[i]))
  }

  /** `a.every(x => matched(x))` over the request values. */
  function AllMatched(host: C.Host, op: BaseOp, xs: seq<Value>, ys: seq<Value>): (r: bool)
    ensures r <==> forall i :: 0 <= i < |xs| ==> MatchedBy(host, op, xs[i], ys)
  {
    Every(xs, x => MatchedBy(host, op, x, ys))
  }

  /** `a.find(x => matched(x))`: the index of the first request value that
      is matched. */
  function FirstMatched(host: C.Host, op: BaseOp, xs: seq<Value>, ys: seq<Value>): (r: Option<nat>)
    ensures r.Some? ==> r.value < |xs| && MatchedBy(host, op, xs[r.value], ys)
    ensures r.Some? ==> forall j :: 0 <= j < r.value ==> !MatchedBy(host, op, xs[j], ys)
    ensures r.None? <==> forall j :: 0 <= j < |xs| ==> !MatchedBy(host, op, xs[j], ys)
  {
    FindIndex(xs, x => MatchedBy(host, op, x, ys))
  }

  /** An entry of the finished table applied to `(a, b)`: the value the
      JavaScript function returns (ForAnyValue returns an element of `a`,
      not a boolean), the TypeError `b.find` raises when `b` is not an
      array, or the exception of a base call. The unquantified forms throw
      exactly when the base call does, and otherwise return its answer. */
  function Apply(host: C.Host, op: BaseOp, v: Variant, a: Value, b: Value): (r: Result<Value>)
    ensures v.Plain? ==> (r.Err? <==> Throws(op, b))
    ensures v.IfExists? ==> (r.Err? <==> !a.Undef? && Throws(op, b))
    ensures (v.Plain? || (v.IfExists? && !a.Undef?)) && !Throws(op, b) ==>
      r == Ok(J.Bool(ApplyBase(host, op, a, b)))
  {
    match v
    case Plain => BoolOf(CallBase(host, op, a, b))
    case IfExists =>
      if a.Undef? then Ok(J.Bool(true)) else BoolOf(CallBase(host, op, a, b))
    case ForAllValues =>
      var xs := J.Wrap(a);
      if xs == [] then Ok(J.Bool(true))
      else if !b.Arr? then Err("TypeError: b.find is not a function")
      else BoolOf(EveryR(xs, x => Matched(host, op, x, b.elems)))
    case ForAnyValue =>
      var xs := J.Wrap(a);
      if xs == [] then Ok(J.Undef)
      else if !b.Arr? then Err("TypeError: b.find is not a function")
      else FirstMatchedValue(host, op, xs, b.elems)
  }

  /** `a.find(x => matched(x))` with the exception of the first inner walk
      that throws before a request value is matched. */
  function FirstMatchedValue(host: C.Host, op: BaseOp, xs: seq<Value>, ys: seq<Value>): Result<Value> {
    match FindR(xs, x => Matched(host, op, x, ys))
    case Err(e) => Err(e)
    case Ok(None) => Ok(J.Undef)
    case Ok(Some(i)) => Ok(xs[i])
  }

  /** A boolean outcome as the JavaScript value returned. */
  function BoolOf(r: Result<bool>): (v: Result<Value>)
    ensures r.Err? <==> v.Err?
    ensures r.Ok? ==> v == Ok(J.Bool(r.value))
  {
    match r
    case Err(e) => Err(e)
    case Ok(t) => Ok(J.Bool(t))
  }

  /** The value ForAnyValue returns: the first matched request value, or
      `undefined` when there is none. */
  function AnyValue(host: C.Host, op: BaseOp, xs: seq<Value>, ys: seq<Value>): Value {
    var i := FirstMatched(host, op, xs, ys);
    if i.Some? then xs[i.value] else J.Undef
  }

  // ---------------------------------------------------------------------
  // What the derived operators promise.

  /** A policy value counts as matched only when the first policy value the
      operator accepts is truthy: a match on false, 0, "" or null is no
      match. */
  lemma MatchedByMeaning(host: C.Host, op: BaseOp, x: Value, ys: seq<Value>)
    ensures MatchedBy(host, op, x, ys) <==>
      exists i :: 0 <= i < |ys| && ApplyBase(host, op, x, ys[i]) && J.Truthy(ys[i]) &&
        forall j :: 0 <= j < i ==> !ApplyBase(host, op, x, ys[j])
  {
    var r := FirstMatch(host, op, x, ys);
    if MatchedBy(host, op, x, ys) {
      var i := r.value;
      assert 0 <= i < |ys| && ApplyBase(host, op, x, ys[i]) && J.Truthy(ys[i]) &&
        forall j :: 0 <= j < i ==> !ApplyBase(host, op, x, ys[j]);
    }
    if exists i :: 0 <= i < |ys| && ApplyBase(host, op, x, ys[i]) && J.Truthy(ys[i]) &&
        forall j :: 0 <= j < i ==> !ApplyBase(host, op, x, ys[j]) {
      var i :| 0 <= i < |ys| && ApplyBase(host, op, x, ys[i]) && J.Truthy(ys[i]) &&
        forall j :: 0 <= j < i ==> !ApplyBase(host, op, x, ys[j]);
      assert r.Some?;
      assert !(r.value < i);
      assert !(i < r.value);
    }
  }

  /** The pattern operators the legacy engine calls by name. */
  lemma LikeApply(host: C.Host, a: Value, b: Value)
    ensures ApplyBase(host, StringLike, a, b) == C.StringLike(a, b)
    ensures ApplyBase(host, StringNotLike, a, b) == C.StringNotLike(a, b)
  {
  }

  /** As written, ArnNotEquals never holds unquantified: on a string
      pattern it throws, on anything else it is false. (Its IfExists form
      on an undefined subject is true, as for every operator.) */
  lemma ArnNotEqualsNeverHolds(host: C.Host, v: Variant, a: Value, b: Value)
    requires v.Plain? || (v.IfExists? && !a.Undef?)
    ensures b.Str? ==> Apply(host, ArnNotEquals, v, a, b).Err?
    ensures !b.Str? ==> Apply(host, ArnNotEquals, v, a, b) == Ok(J.Bool(false))
  {
  }

  /** `OpIfExists(undefined, b)` holds whatever `b` is; on a defined `a` it
      is `Op(a, b)`. */
  lemma IfExistsSemantics(host: C.Host, op: BaseOp, a: Value, b: Value)
    ensures Apply(host, op, IfExists, J.Undef, b) == Ok(J.Bool(true))
    ensures !a.Undef? ==> Apply(host, op, IfExists, a, b) == Apply(host, op, Plain, a, b)
  {
  }

  /** A scalar request value is the one-element list of itself; an empty
      request list makes ForAllValues true and ForAnyValue falsy, whatever
      the policy values. */
  lemma QuantifierBoundaries(host: C.Host, op: BaseOp, a: Value, b: Value)
    ensures !a.Arr? ==> Apply(host, op, ForAllValues, a, b) == Apply(host, op, ForAllValues, J.Arr([a]), b)
    ensures !a.Arr? ==> Apply(host, op, ForAnyValue, a, b) == Apply(host, op, ForAnyValue, J.Arr([a]), b)
    ensures Apply(host, op, ForAllValues, J.Arr([]), b) == Ok(J.Bool(true))
    ensures Apply(host, op, ForAnyValue, J.Arr([]), b).Ok?
    ensures !J.Truthy(Apply(host, op, ForAnyValue, J.Arr([]), b).value)
  {
  }

  /** Over policy values none of which throws, the inner `find` is
      `MatchedBy`. */
  lemma MatchedTotal(host: C.Host, op: BaseOp, x: Value, ys: seq<Value>)
    requires !SomeThrows(op, ys)
    ensures Matched(host, op, x, ys) == Ok(MatchedBy(host, op, x, ys))
  {
    var p := y => CallBase(host, op, x, y);
    var q := y => ApplyBase(host, op, x, y);
    forall j | 0 <= j < |ys| ensures p(ys[j]) == Ok(q(ys[j])) {
      assert !Throws(op, ys[j]);
    }
    FindROfTotal(ys, p, q);
  }

  /** The same for every request value at once. */
  lemma MatchedAllTotal(host: C.Host, op: BaseOp, ys: seq<Value>)
    requires !SomeThrows(op, ys)
    ensures forall x :: Matched(host, op, x, ys) == Ok(MatchedBy(host, op, x, ys))
  {
    forall x ensures Matched(host, op, x, ys) == Ok(MatchedBy(host, op, x, ys)) {
      MatchedTotal(host, op, x, ys);
    }
  }

  /** ArnNotEquals accepts no policy value, so its inner `find` reaches the
      first string pattern and throws there. */
  lemma MatchedThrows(host: C.Host, x: Value, ys: seq<Value>)
    requires SomeThrows(ArnNotEquals, ys)
    ensures Matched(host, ArnNotEquals, x, ys).Err?
  {
    var p := y => CallBase(host, ArnNotEquals, x, y);
    var k :| 0 <= k < |ys| && Throws(ArnNotEquals, ys[k]);
    assert p(ys[k]).Err?;
    forall j | 0 <= j < |ys| ensures p(ys[j]) != Ok(true) {
      assert p(ys[j]) == C.NotLikeOnTable(ys[j]);
    }
    FindRThrows(ys, p, k);
  }

  /** ForAllValues holds iff every request value is matched by some policy
      value (in the sense of MatchedBy) when no policy value makes the base
      call throw; it throws when there is a request value and the policy
      values are not an array, or some of them throws (ArnNotEquals with a
      string pattern). */
  lemma ForAllValuesMeaning(host: C.Host, op: BaseOp, a: Value, b: Value)
    ensures J.Wrap(a) != [] && !b.Arr? ==> Apply(host, op, ForAllValues, a, b).Err?
    ensures b.Arr? && !SomeThrows(op, b.elems) ==>
      Apply(host, op, ForAllValues, a, b) ==
      Ok(J.Bool((forall i :: 0 <= i < |J.Wrap(a)| ==> MatchedBy(host, op, J.Wrap(a)[i], b.elems))))
    ensures J.Wrap(a) != [] && b.Arr? && SomeThrows(op, b.elems) ==>
      Apply(host, op, ForAllValues, a, b).Err?
  {
    if b.Arr? && J.Wrap(a) != [] {
      if SomeThrows(op, b.elems) {
        ForAllValuesThrows(host, op, a, b);
      } else {
        ForAllValuesTotal(host, op, a, b);
      }
    }
  }

  lemma ForAllValuesTotal(host: C.Host, op: BaseOp, a: Value, b: Value)
    requires b.Arr? && J.Wrap(a) != [] && !SomeThrows(op, b.elems)
    ensures Apply(host, op, ForAllValues, a, b) ==
      Ok(J.Bool((forall i :: 0 <= i < |J.Wrap(a)| ==> MatchedBy(host, op, J.Wrap(a)[i], b.elems))))
  {
    MatchedAllTotal(host, op, b.elems);
    EveryROfTotal(J.Wrap(a), x => Matched(host, op, x, b.elems), x => MatchedBy(host, op, x, b.elems));
  }

  lemma ForAllValuesThrows(host: C.Host, op: BaseOp, a: Value, b: Value)
    requires b.Arr? && J.Wrap(a) != [] && SomeThrows(op, b.elems)
    ensures Apply(host, op, ForAllValues, a, b).Err?
  {
    MatchedThrows(host, J.Wrap(a)[0], b.elems);
  }

  /** ForAnyValue returns the first request value that is matched; it is
      truthy iff that value is itself truthy, so a matched "" or 0 in the
      request list hides any later match. It throws when there is a request
      value and the policy values are not an array or some of them makes
      the base call throw. */
  lemma ForAnyValueMeaning(host: C.Host, op: BaseOp, a: Value, b: Value)
    ensures J.Wrap(a) != [] && !b.Arr? ==> Apply(host, op, ForAnyValue, a, b).Err?
    ensures b.Arr? && !SomeThrows(op, b.elems) ==> Apply(host, op, ForAnyValue, a, b).Ok?
    ensures b.Arr? && !SomeThrows(op, b.elems) ==>
      (J.Truthy(Apply(host, op, ForAnyValue, a, b).value) <==>
       exists i :: 0 <= i < |J.Wrap(a)| && MatchedBy(host, op, J.Wrap(a)[i], b.elems) &&
         J.Truthy(J.Wrap(a)[i]) &&
         forall j :: 0 <= j < i ==> !MatchedBy(host, op, J.Wrap(a)[j], b.elems))
    ensures J.Wrap(a) != [] && b.Arr? && SomeThrows(op, b.elems) ==>
      Apply(host, op, ForAnyValue, a, b).Err?
  {
    if b.Arr? {
      if SomeThrows(op, b.elems) {
        ForAnyValueThrows(host, a, b);
      } else {
        ForAnyValueIsAnyValue(host, op, a, b);
        AnyValueMeaning(host, op, J.Wrap(a), b.elems);
      }
    }
  }

  lemma ForAnyValueThrows(host: C.Host, a: Value, b: Value)
    requires b.Arr? && SomeThrows(ArnNotEquals, b.elems)
    ensures J.Wrap(a) != [] ==> Apply(host, ArnNotEquals, ForAnyValue, a, b).Err?
  {
    if J.Wrap(a) != [] {
      ForAnyValueWalk(host, ArnNotEquals, a, b);
      FirstMatchedValueThrows(host, J.Wrap(a), b.elems);
    }
  }

  /** Over a non-empty request list and an array of policy values,
      ForAnyValue is the outer `find`. */
  lemma ForAnyValueWalk(host: C.Host, op: BaseOp, a: Value, b: Value)
    requires J.Wrap(a) != [] && b.Arr?
    ensures Apply(host, op, ForAnyValue, a, b) == FirstMatchedValue(host, op, J.Wrap(a), b.elems)
  {
  }

  /** Over an array of policy values none of which throws, ForAnyValue
      returns `AnyValue`, which is `undefined` for an empty request list
      too. */
  lemma ForAnyValueIsAnyValue(host: C.Host, op: BaseOp, a: Value, b: Value)
    requires b.Arr? && !SomeThrows(op, b.elems)
    ensures Apply(host, op, ForAnyValue, a, b) == Ok(AnyValue(host, op, J.Wrap(a), b.elems))
  {
    var xs := J.Wrap(a);
    if xs == [] {
      assert FirstMatched(host, op, xs, b.elems).None?;
    } else {
      FirstMatchedValueTotal(host, op, xs, b.elems);
    }
  }

  lemma FirstMatchedValueTotal(host: C.Host, op: BaseOp, xs: seq<Value>, ys: seq<Value>)
    requires !SomeThrows(op, ys)
    ensures FirstMatchedValue(host, op, xs, ys) == Ok(AnyValue(host, op, xs, ys))
  {
    MatchedAllTotal(host, op, ys);
    FindROfTotal(xs, x => Matched(host, op, x, ys), x => MatchedBy(host, op, x, ys));
  }

  lemma FirstMatchedValueThrows(host: C.Host, xs: seq<Value>, ys: seq<Value>)
    requires xs != [] && SomeThrows(ArnNotEquals, ys)
    ensures FirstMatchedValue(host, ArnNotEquals, xs, ys).Err?
  {
    MatchedThrows(host, xs[0], ys);
  }

  lemma AnyValueMeaning(host: C.Host, op: BaseOp, xs: seq<Value>, ys: seq<Value>)
    ensures J.Truthy(AnyValue(host, op, xs, ys)) <==>
      exists i :: 0 <= i < |xs| && MatchedBy(host, op, xs[i], ys) && J.Truthy(xs[i]) &&
        forall j :: 0 <= j < i ==> !MatchedBy(host, op, xs[j], ys)
  {
    var r := FirstMatched(host, op, xs, ys);
    if J.Truthy(AnyValue(host, op, xs, ys)) {
      var i := r.value;
      assert 0 <= i < |xs| && MatchedBy(host, op, xs[i], ys) && J.Truthy(xs[i]) &&
        forall j :: 0 <= j < i ==> !MatchedBy(host, op, xs[j], ys);
    }
    if exists i :: 0 <= i < |xs| && MatchedBy(host, op, xs[i], ys) && J.Truthy(xs[i]) &&
        forall j :: 0 <= j < i ==> !MatchedBy(host, op, xs[j], ys) {
      var i :| 0 <= i < |xs| && MatchedBy(host, op, xs[i], ys) && J.Truthy(xs[i]) &&
        forall j :: 0 <= j < i ==> !MatchedBy(host, op, xs[j], ys);
      assert r.Some?;
      assert !(r.value < i);
      assert !(i < r.value);
    }
  }

  /** Under StringEquals a request value is matched iff it is a non-empty
      string that occurs among the policy values. */
  lemma StringEqualsMatchedBy(host: C.Host, x: Value, ys: seq<Value>)
    ensures MatchedBy(host, StringEquals, x, ys) <==> x.Str? && x.s != "" && x in ys
  {
    MatchedByMeaning(host, StringEquals, x, ys);
    if x.Str? && x in ys {
      var k :| 0 <= k < |ys| && ys[k] == x;
      assert ApplyBase(host, StringEquals, x, ys[k]);
      assert FirstMatch(host, StringEquals, x, ys).Some?;
    }
  }

  /** `ForAnyValue:StringEquals` with a list of policy strings is truthy iff
      the request and policy lists share a non-empty string. */
  lemma ForAnyStringEquals(host: C.Host, a: Value, ids: seq<Value>)
    ensures Apply(host, StringEquals, ForAnyValue, a, J.Arr(ids)).Ok?
    ensures J.Truthy(Apply(host, StringEquals, ForAnyValue, a, J.Arr(ids)).value) <==>
      exists x :: x in J.Wrap(a) && x.Str? && x.s != "" && x in ids
  {
    ForAnyValueIsAnyValue(host, StringEquals, a, J.Arr(ids));
    var xs := J.Wrap(a);
    var f := FirstMatched(host, StringEquals, xs, ids);
    if f.Some? {
      var x := xs[f.value];
      StringEqualsMatchedBy(host, x, ids);
      assert x in xs && x.Str? && x.s != "" && x in ids;
    } else {
      forall x | x in xs
        ensures !(x.Str? && x.s != "" && x in ids)
      {
        var k :| 0 <= k < |xs| && xs[k] == x;
        StringEqualsMatchedBy(host, x, ids);
      }
    }
  }

  /** `ForAllValues:StringEquals` with a list of policy strings holds iff
      every request value is a non-empty string among them. */
  lemma ForAllStringEquals(host: C.Host, a: Value, ids: seq<Value>)
    ensures Apply(host, StringEquals, ForAllValues, a, J.Arr(ids)) ==
      Ok(J.Bool(forall x :: x in J.Wrap(a) ==> x.Str? && x.s != "" && x in ids))
  {
    var xs := J.Wrap(a);
    forall x | x in xs
      ensures MatchedBy(host, StringEquals, x, ids) <==> x.Str? && x.s != "" && x in ids
    {
      StringEqualsMatchedBy(host, x, ids);
    }
    ForAllValuesMeaning(host, StringEquals, a, J.Arr(ids));
  }
}
