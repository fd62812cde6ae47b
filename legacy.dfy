/** The earlier engine of index.js. It shares the operator table, the
    context lookup and the interpolation with pbac.js, but every statement
    is tested on Resource, Action and NotAction are matched the other way
    round, condition operators get the policy value first, a `conditions`
    option replaces the whole table, and policies are never validated. */
module Legacy {
  import opened Results
  import J = JsValue
  import C = Conditions
  import R = Registry
  import opened Finds
  import Ctx = Context
  import P = Pbac
  import Pattern

  type Value = J.Value

  /** `this.conditions`: the built-in table, or the caller's table in its
      place. */
  datatype Table = Builtins | Customs(m: map<string, P.Custom>)

  function Lookup(table: Table, name: string): (r: Option<P.Operator>)
    ensures table.Builtins? ==> r == P.Resolve(map[], name)
    ensures table.Customs? ==> (r.Some? <==> name in table.m)
    ensures table.Customs? && name in table.m ==> r == Some(P.CustomOp(table.m[name]))
  {
    match table
    case Builtins =>
      (match R.Builtin(name)
       case Some((op, v)) => Some(P.BuiltinOp(op, v))
       case None => None)
    case Customs(m) => if name in m then Some(P.CustomOp(m[name])) else None
  }

  /** The entries `evaluate` calls by name. */
  const LikeName: string := R.OperatorName(R.StringLike, R.Plain)
  const NotLikeName: string := R.OperatorName(R.StringNotLike, R.Plain)

  /** `conditions[name](a, b)`: calling a name the table lacks throws. */
  function CallNamed(table: Table, host: C.Host, name: string, a: Value, b: Value): (r: Result<bool>)
    ensures Lookup(table, name).None? ==> r.Err?
  {
    match Lookup(table, name)
    case None => Err("TypeError: undefined is not a function")
    case Some(o) => P.Truthy(P.Call(host, o, a, b))
  }

  /** What lodash's `find` and `all` walk: the elements of an array, the
      characters of a string, the values of an object, nothing otherwise. */
  function Members(v: Value): (r: seq<Value>)
    ensures v.Arr? ==> r == v.elems
    ensures v.Str? ==> |r| == |v.s|
    ensures v.Obj? ==> |r| == |v.props|
    ensures !v.Arr? && !v.Str? && !v.Obj? ==> r == []
  {
    match v
    case Arr(e) => e
    case Str(s) => seq(|s|, i requires 0 <= i < |s| => J.Str([s[i]]))
    case Obj(p) => seq(|p|, i requires 0 <= i < |p| => p[i].val)
    case _ => []
  }

  // ---------------------------------------------------------------------
  // The request (index.js:31-35).

  datatype Request = Request(action: Value, resource: Value, variables: Value)

  /** `_.extend({action: '', resource: '', variables: {}}, options || {})`. */
  function RequestOf(options: Value): (r: Request)
    ensures !options.Obj? ==> r == Request(J.Str(""), J.Str(""), J.Obj([]))
  {
    var props := if options.Obj? then options.props else [];
    Request(P.Field(props, "action", J.Str("")),
            P.Field(props, "resource", J.Str("")),
            P.Field(props, "variables", J.Obj([])))
  }

  // ---------------------------------------------------------------------
  // A statement (index.js:52-65, 78-97).

  /** One resource entry, interpolated, as the SUBJECT of StringLike with
      the request resource as the pattern. */
  function ResourceMatches(table: Table, host: C.Host, entry: Value, reference: Value, variables: Value): (r: Result<bool>)
    ensures !entry.Str? ==> r.Err?
  {
    if !entry.Str? then Err("TypeError: resource.replace is not a function")
    else
      match Ctx.Interpolate(entry.s, variables)
      case Err(e) => Err(e)
      case Ok(text) => CallNamed(table, host, LikeName, J.Str(text), reference)
  }

  /** The first matching entry, tested for truthiness. A statement without
      Resource reaches `undefined.replace` and throws. */
  function EvaluateResource(table: Table, host: C.Host, resources: Value, reference: Value, variables: Value): (r: Result<bool>)
    ensures resources.Undef? ==> r.Err?
  {
    var entries := J.Wrap(resources);
    match FindR(entries, e => ResourceMatches(table, host, e, reference, variables))
    case Err(e) => Err(e)
    case Ok(None) => Ok(false)
    case Ok(Some(i)) => Ok(J.Truthy(entries[i]))
  }

  /** `_.find(statement.Action, a => StringLike(a, action)) ? true : false`:
      the statement's entry is the subject, the request action the pattern. */
  function ActionMatches(table: Table, host: C.Host, actions: Value, action: Value): Result<bool> {
    var entries := Members(actions);
    match FindR(entries, e => CallNamed(table, host, LikeName, e, action))
    case Err(e) => Err(e)
    case Ok(None) => Ok(false)
    case Ok(Some(i)) => Ok(J.Truthy(entries[i]))
  }

  /** `this.conditions.StringNotLike(e, action)`: a method call on the
      table, so inside the function `this` is the table and not the engine.
      The built-in StringNotLike then reads `this.conditions.StringLike` of
      the table and throws on every string action; a caller's function is
      called as it is everywhere else. */
  function NotLikeMethod(table: Table, host: C.Host, e: Value, action: Value): (r: Result<bool>)
    ensures table.Builtins? ==> (r.Err? <==> action.Str?)
    ensures table.Builtins? ==> r != Ok(true)
    ensures table.Customs? ==> r == CallNamed(table, host, NotLikeName, e, action)
  {
    match table
    case Builtins => C.NotLikeOnTable(action)
    case Customs(_) => CallNamed(table, host, NotLikeName, e, action)
  }

  /** `_.all(statement.NotAction, a => this.conditions.StringNotLike(a,
      action))`, as written. */
  function NotActionMatches(table: Table, host: C.Host, notActions: Value, action: Value): Result<bool> {
    EveryR(Members(notActions), e => NotLikeMethod(table, host, e, action))
  }

  /** The same walk with StringNotLike called on the engine, as every other
      call of the table is: what the NotAction test evidently intends. */
  function NotActionMatchesIntended(table: Table, host: C.Host, notActions: Value, action: Value): Result<bool> {
    EveryR(Members(notActions), e => CallNamed(table, host, NotLikeName, e, action))
  }

  /** `actionApplies`: false to begin with, set by Action when present, then
      overwritten by NotAction when present. */
  function ActionApplies(table: Table, host: C.Host, stmt: Value, action: Value): Result<bool> {
    var actions := J.SafeGet(stmt, "Action");
    var notActions := J.SafeGet(stmt, "NotAction");
    var fromAction :=
      if J.Truthy(actions) then ActionMatches(table, host, actions, action) else Ok(false);
    match fromAction
    case Err(e) => Err(e)
    case Ok(b) =>
      if J.Truthy(notActions) then NotActionMatches(table, host, notActions, action) else Ok(b)
  }

  /** `_.keys(expression)[0]` and `_.values(expression)[0]`: the first
      property of an object, the first element or character (under the key
      "0") of an array or a string, nothing otherwise. */
  function FirstEntry(expression: Value): (r: Option<(string, Value)>)
    ensures expression.Obj? && expression.props != [] ==>
      r == Some((expression.props[0].key, expression.props[0].val))
    ensures r.None? <==> Members(expression) == []
  {
    match expression
    case Obj(p) => if p == [] then None else Some((p[0].key, p[0].val))
    case Arr(e) => if e == [] then None else Some(("0", e[0]))
    case Str(s) => if s == [] then None else Some(("0", J.Str([s[0]])))
    case _ => None
  }

  /** The policy values of an operator: the first value of its expression,
      as a list. */
  function PolicyValues(expression: Value): seq<Value> {
    J.Wrap(match FirstEntry(expression) case Some(e) => e.1 case None => J.Undef)
  }

  /** One operator of a Condition block: some policy value, passed FIRST,
      must make the operator hold against the context value, and must be
      truthy. */
  function ConditionHolds(table: Table, host: C.Host, key: string, expression: Value, variables: Value): Result<bool> {
    var values := PolicyValues(expression);
    match FindR(values, v => ConditionCall(table, host, key, v, FirstEntry(expression), variables))
    case Err(e) => Err(e)
    case Ok(None) => Ok(false)
    case Ok(Some(i)) => Ok(J.Truthy(values[i]))
  }

  /** `conditions[key].call(this, value, getVariableValue(variable,
      variables))`; the operator is looked up first, and an expression
      without a first key reaches `undefined.split`. */
  function ConditionCall(table: Table, host: C.Host, key: string, value: Value, entry: Option<(string, Value)>, variables: Value): (r: Result<bool>)
    ensures Lookup(table, key).None? || entry.None? ==> r.Err?
  {
    match Lookup(table, key)
    case None => Err("TypeError: Cannot read property 'call' of undefined")
    case Some(o) =>
      match entry
      case None => Err("TypeError: Cannot read property 'split' of undefined")
      case Some((variable, _)) =>
        match Ctx.ContextValue(variable, variables)
        case Err(e) => Err(e)
        case Ok(c) => P.Truthy(P.Call(host, o, value, c))
  }

  function EvaluateCondition(table: Table, host: C.Host, condition: Value, variables: Value): (r: Result<bool>)
    ensures !condition.Obj? ==> r == Ok(true)
    ensures condition.Obj? ==>
      (r == Ok(true) <==> forall i :: 0 <= i < |condition.props| ==>
        ConditionHolds(table, host, condition.props[i].key, J.Lookup(condition.props, condition.props[i].key), variables) == Ok(true))
  {
    if !condition.Obj? then Ok(true)
    else
      EveryR(J.Keys(condition.props),
        key => ConditionHolds(table, host, key, J.Lookup(condition.props, key), variables))
  }

  /** The `find` callback of filterPoliciesBy. */
  function Applies(table: Table, host: C.Host, stmt: Value, effect: string, req: Request): (r: Result<bool>)
    ensures stmt.Undef? || stmt.Null? ==> r.Err?
    ensures r == Ok(true) ==> stmt.Obj? && J.Lookup(stmt.props, "Effect") == J.Str(effect)
  {
    match J.Get(stmt, "Effect")
    case Err(e) => Err(e)
    case Ok(e) =>
      if e != J.Str(effect) then Ok(false)
      else
        match EvaluateResource(table, host, J.SafeGet(stmt, "Resource"), req.resource, req.variables)
        case Err(e) => Err(e)
        case Ok(false) => Ok(false)
        case Ok(true) =>
          match ActionApplies(table, host, stmt, req.action)
          case Err(e) => Err(e)
          case Ok(false) => Ok(false)
          case Ok(true) => EvaluateCondition(table, host, J.SafeGet(stmt, "Condition"), req.variables)
  }

  function FilterPoliciesBy(table: Table, host: C.Host, policies: seq<Value>, effect: string, req: Request): (r: Result<bool>)
    ensures r == Ok(false) <==>
      forall i :: 0 <= i < |P.Statements(policies)| ==>
        Applies(table, host, P.Statements(policies)[i], effect, req) == Ok(false)
  {
    var stmts := P.Statements(policies);
    match FindR(stmts, s => Applies(table, host, s, effect, req))
    case Err(e) => Err(e)
    case Ok(None) => Ok(false)
    case Ok(Some(i)) => Ok(J.Truthy(stmts[i]))
  }

  function Decide(table: Table, host: C.Host, policies: seq<Value>, options: Value): Result<bool> {
    var req := RequestOf(options);
    match FilterPoliciesBy(table, host, policies, "Deny", req)
    case Err(e) => Err(e)
    case Ok(true) => Ok(false)
    case Ok(false) => FilterPoliciesBy(table, host, policies, "Allow", req)
  }

  // ---------------------------------------------------------------------
  // The decision.

  /** The statement `find` stops at, for one effect. */
  ghost predicate FirstApplies(table: Table, host: C.Host, stmts: seq<Value>, effect: string, req: Request) {
    FirstAccepted(stmts, s => Applies(table, host, s, effect, req))
  }

  /** filterPoliciesBy finds something exactly when a statement applies
      before any statement throws. */
  lemma FilterMeaning(table: Table, host: C.Host, policies: seq<Value>, effect: string, req: Request)
    ensures FilterPoliciesBy(table, host, policies, effect, req) == Ok(true) <==>
      FirstApplies(table, host, P.Statements(policies), effect, req)
  {
    FindRHits(P.Statements(policies), s => Applies(table, host, s, effect, req));
  }

  /** A request is allowed exactly when no Deny statement applies (and none
      throws) and an Allow statement applies before any Allow statement
      throws; an applicable Deny statement wins. */
  lemma DecisionMeaning(table: Table, host: C.Host, policies: seq<Value>, options: Value)
    ensures var req := RequestOf(options);
      Decide(table, host, policies, options) == Ok(true) <==>
        (forall i :: 0 <= i < |P.Statements(policies)| ==>
           Applies(table, host, P.Statements(policies)[i], "Deny", req) == Ok(false)) &&
        FirstApplies(table, host, P.Statements(policies), "Allow", req)
    ensures FirstApplies(table, host, P.Statements(policies), "Deny", RequestOf(options)) ==>
      Decide(table, host, policies, options) == Ok(false)
    ensures Decide(table, host, [], options) == Ok(false)
  {
    FilterMeaning(table, host, policies, "Deny", RequestOf(options));
    FilterMeaning(table, host, policies, "Allow", RequestOf(options));
  }

  // ---------------------------------------------------------------------
  // What each check of a statement means.

  /** The built-in StringLike, called by name, never throws and is
      StringLike. StringNotLike called as a method of the table (the
      NotAction test) is false on a non-string action and throws on a
      string one; called on the engine, as intended, it would be
      StringNotLike. */
  lemma BuiltinLikeCalls(host: C.Host, a: Value, b: Value)
    ensures CallNamed(Builtins, host, LikeName, a, b) == Ok(C.StringLike(a, b))
    ensures !b.Str? ==> NotLikeMethod(Builtins, host, a, b) == Ok(false)
    ensures b.Str? ==> NotLikeMethod(Builtins, host, a, b).Err?
    ensures CallNamed(Builtins, host, NotLikeName, a, b) == Ok(C.StringNotLike(a, b))
  {
    LikeCall(host, a, b);
    NotLikeCall(host, a, b);
  }

  lemma LikeCall(host: C.Host, a: Value, b: Value)
    ensures CallNamed(Builtins, host, LikeName, a, b) == Ok(C.StringLike(a, b))
  {
    LikeIsBuiltin();
    CallBuiltin(host, LikeName, R.StringLike, a, b);
    R.LikeApply(host, a, b);
  }

  lemma NotLikeCall(host: C.Host, a: Value, b: Value)
    ensures CallNamed(Builtins, host, NotLikeName, a, b) == Ok(C.StringNotLike(a, b))
  {
    NotLikeIsBuiltin();
    CallBuiltin(host, NotLikeName, R.StringNotLike, a, b);
    R.LikeApply(host, a, b);
  }

  /** Calling a name the built-in table resolves to a plain operator
      applies that operator. */
  lemma CallBuiltin(host: C.Host, name: string, op: R.BaseOp, a: Value, b: Value)
    requires Lookup(Builtins, name) == Some(P.BuiltinOp(op, R.Plain)) && !R.Throws(op, b)
    ensures CallNamed(Builtins, host, name, a, b) == Ok(J.Truthy(J.Bool(R.ApplyBase(host, op, a, b))))
  {
    assert P.Call(host, P.BuiltinOp(op, R.Plain), a, b) == Ok(J.Bool(R.ApplyBase(host, op, a, b)));
  }

  lemma LikeIsBuiltin()
    ensures Lookup(Builtins, LikeName) == Some(P.BuiltinOp(R.StringLike, R.Plain))
  {
    R.TableIsDerived(R.StringLike, R.Plain, LikeName);
  }

  lemma NotLikeIsBuiltin()
    ensures Lookup(Builtins, NotLikeName) == Some(P.BuiltinOp(R.StringNotLike, R.Plain))
  {
    R.TableIsDerived(R.StringNotLike, R.Plain, NotLikeName);
  }

  /** Every statement is tested on its Resource: one without Resource
      throws once its Effect matches. */
  lemma MissingResourceThrows(table: Table, host: C.Host, props: seq<J.Prop>, effect: string, req: Request)
    requires J.Lookup(props, "Effect") == J.Str(effect) && J.Lookup(props, "Resource").Undef?
    ensures Applies(table, host, J.Obj(props), effect, req).Err?
  {
  }

  /** With resource entries that are non-empty strings without `$`, Resource
      holds iff one of the ENTRIES is matched by the request resource taken
      as the pattern. */
  lemma ResourceMeaning(host: C.Host, entries: seq<Value>, resource: Value, variables: Value)
    requires forall i :: 0 <= i < |entries| ==> entries[i].Str? && entries[i].s != "" && '$' !in entries[i].s
    ensures EvaluateResource(Builtins, host, J.Arr(entries), resource, variables) ==
      Ok(exists i :: 0 <= i < |entries| && C.StringLike(entries[i], resource))
  {
    var p := e => ResourceMatches(Builtins, host, e, resource, variables);
    var q := e => C.StringLike(e, resource);
    forall i | 0 <= i < |entries| ensures p(entries[i]) == Ok(q(entries[i])) {
      Ctx.NoPlaceholder(entries[i].s, variables);
      BuiltinLikeCalls(host, entries[i], resource);
    }
    FindROfTotal(entries, p, q);
  }

  /** With Action entries that are non-empty strings, Action holds iff one
      of the entries is matched by the request action taken as the
      pattern. */
  lemma ActionMeaning(host: C.Host, entries: seq<Value>, action: Value)
    requires forall i :: 0 <= i < |entries| ==> entries[i].Str? && entries[i].s != ""
    ensures ActionMatches(Builtins, host, J.Arr(entries), action) ==
      Ok(exists i :: 0 <= i < |entries| && C.StringLike(entries[i], action))
  {
    var p := e => CallNamed(Builtins, host, LikeName, e, action);
    var q := e => C.StringLike(e, action);
    forall i | 0 <= i < |entries| ensures p(entries[i]) == Ok(q(entries[i])) {
      BuiltinLikeCalls(host, entries[i], action);
    }
    FindROfTotal(entries, p, q);
  }

  /** Because the request is the pattern, a wildcard in the request action
      admits every action entry, while a wildcard entry such as `iam:*`
      does not admit a request action without wildcards that differs from
      it. */
  lemma RequestIsThePattern(host: C.Host, entry: string, action: string)
    requires entry != []
    requires Pattern.IsLiteral(action) && entry != action
    ensures ActionMatches(Builtins, host, J.Arr([J.Str(entry)]), J.Str("*")) ==
      Ok(Pattern.NoLineTerminators(entry))
    ensures ActionMatches(Builtins, host, J.Arr([J.Str(entry)]), J.Str(action)) == Ok(false)
  {
    ActionMeaning(host, [J.Str(entry)], J.Str("*"));
    ActionMeaning(host, [J.Str(entry)], J.Str(action));
    C.LoneStar(J.Str(entry));
    C.LiteralPatternIsEquality(J.Str(entry), action);
  }

  /** A statement with neither Action nor NotAction never applies. */
  lemma NoActionNeverApplies(table: Table, host: C.Host, props: seq<J.Prop>, effect: string, req: Request)
    requires !J.Truthy(J.Lookup(props, "Action")) && !J.Truthy(J.Lookup(props, "NotAction"))
    ensures Applies(table, host, J.Obj(props), effect, req) != Ok(true)
  {
    assert ActionApplies(table, host, J.Obj(props), req.action) == Ok(false);
  }

  /** With the built-in table, NotAction, when present, alone decides
      whether the actions apply, whatever Action says, and as written it
      never lets them apply unless it has no members: it throws on a string
      action (the default action "" included) and is false on any other. */
  lemma NotActionDecides(host: C.Host, stmt: Value, action: Value)
    requires J.Truthy(J.SafeGet(stmt, "NotAction"))
    ensures Members(J.SafeGet(stmt, "NotAction")) == [] ==>
      ActionApplies(Builtins, host, stmt, action) == Ok(true)
    ensures Members(J.SafeGet(stmt, "NotAction")) != [] && action.Str? ==>
      ActionApplies(Builtins, host, stmt, action).Err?
    ensures Members(J.SafeGet(stmt, "NotAction")) != [] && !action.Str? ==>
      ActionApplies(Builtins, host, stmt, action) == Ok(false)
  {
    ActionNeverThrows(host, J.SafeGet(stmt, "Action"), action);
    var notActions := Members(J.SafeGet(stmt, "NotAction"));
    var np := e => NotLikeMethod(Builtins, host, e, action);
    if notActions != [] {
      assert np(notActions[0]).Err? <==> action.Str?;
    }
  }

  /** So with the built-in table, a statement of the asked effect whose
      Resource passes and whose NotAction has members throws on a string
      request action: the default action "" included. */
  lemma NotActionStatementThrows(host: C.Host, props: seq<J.Prop>, effect: string, req: Request)
    requires J.Lookup(props, "Effect") == J.Str(effect)
    requires EvaluateResource(Builtins, host, J.Lookup(props, "Resource"), req.resource, req.variables) == Ok(true)
    requires J.Truthy(J.Lookup(props, "NotAction")) && Members(J.Lookup(props, "NotAction")) != []
    requires req.action.Str?
    ensures Applies(Builtins, host, J.Obj(props), effect, req).Err?
  {
    NotActionDecides(host, J.Obj(props), req.action);
  }

  /** The Action test with the built-in table never throws. */
  lemma ActionNeverThrows(host: C.Host, actions: Value, action: Value)
    ensures ActionMatches(Builtins, host, actions, action).Ok?
  {
    var entries := Members(actions);
    var p := e => CallNamed(Builtins, host, LikeName, e, action);
    var q := e => C.StringLike(e, action);
    forall i | 0 <= i < |entries| ensures p(entries[i]) == Ok(q(entries[i])) {
      BuiltinLikeCalls(host, entries[i], action);
    }
    FindROfTotal(entries, p, q);
  }

  /** The NotAction test as intended, with StringNotLike called on the
      engine: it holds iff no NotAction entry is matched by the request
      action taken as the pattern. */
  lemma NotActionIntended(host: C.Host, notActions: Value, action: Value)
    ensures NotActionMatchesIntended(Builtins, host, notActions, action) ==
      Ok(forall i :: 0 <= i < |Members(notActions)| ==> C.StringNotLike(Members(notActions)[i], action))
    ensures action.Str? ==>
      NotActionMatchesIntended(Builtins, host, notActions, action) ==
      Ok(forall i :: 0 <= i < |Members(notActions)| ==> !C.StringLike(Members(notActions)[i], action))
  {
    var entries := Members(notActions);
    var np := e => CallNamed(Builtins, host, NotLikeName, e, action);
    var nq := e => C.StringNotLike(e, action);
    forall i | 0 <= i < |entries| ensures np(entries[i]) == Ok(nq(entries[i])) {
      BuiltinLikeCalls(host, entries[i], action);
    }
    EveryROfTotal(entries, np, nq);
  }

  /** A table given in `options.conditions` without StringLike makes every
      statement with a non-empty Action list throw. */
  lemma CustomTableReplacesBuiltins(m: map<string, P.Custom>, host: C.Host, entries: seq<Value>, action: Value)
    requires LikeName !in m && entries != []
    ensures ActionMatches(Customs(m), host, J.Arr(entries), action).Err?
  {
  }

  /** An operator that is not a quantified built-in throws only as the
      built-in ArnNotEquals does, on a string second argument (here the
      context value). */
  lemma CallThrows(host: C.Host, o: P.Operator, a: Value, b: Value)
    requires o.BuiltinOp? ==> o.variant.Plain? || o.variant.IfExists?
    ensures P.Call(host, o, a, b).Err? <==>
      o.BuiltinOp? && R.Throws(o.op, b) && !(o.variant.IfExists? && a.Undef?)
  {
  }

  /** One call of the operator, with the context value of the expression's
      first key as its second argument. */
  lemma PolicyValueCall(table: Table, host: C.Host, key: string, v: Value, ck: string, first: Value, variables: Value)
    requires Lookup(table, key).Some? && !variables.Undef? && !variables.Null?
    ensures Ctx.ContextValue(ck, variables).Ok?
    ensures ConditionCall(table, host, key, v, Some((ck, first)), variables) ==
      P.Truthy(P.Call(host, Lookup(table, key).value, v, Ctx.ContextValue(ck, variables).value))
  {
  }

  /** Over policy values none of whose calls throws, each call is the
      truthiness of the operator's value. */
  lemma CallsAreTotal(table: Table, host: C.Host, key: string, ck: string, values: seq<Value>, variables: Value)
    requires Lookup(table, key).Some?
    requires !variables.Undef? && !variables.Null?
    requires forall j :: 0 <= j < |values| ==>
      P.Call(host, Lookup(table, key).value, values[j], Ctx.ContextValue(ck, variables).value).Ok?
    ensures Ctx.ContextValue(ck, variables).Ok?
    ensures forall j :: 0 <= j < |values| ==>
      ConditionCall(table, host, key, values[j], Some((ck, J.Arr(values))), variables) ==
      Ok(P.Truthy(P.Call(host, Lookup(table, key).value, values[j], Ctx.ContextValue(ck, variables).value)) == Ok(true))
  {
    forall j | 0 <= j < |values|
      ensures ConditionCall(table, host, key, values[j], Some((ck, J.Arr(values))), variables) ==
        Ok(P.Truthy(P.Call(host, Lookup(table, key).value, values[j], Ctx.ContextValue(ck, variables).value)) == Ok(true))
    {
      PolicyValueCall(table, host, key, values[j], ck, J.Arr(values), variables);
    }
  }

  /** A Condition block with one operator is that operator's outcome. */
  lemma SingleOperatorBlock(table: Table, host: C.Host, key: string, expression: Value, variables: Value)
    ensures EvaluateCondition(table, host, J.Obj([J.Prop(key, expression)]), variables) ==
      ConditionHolds(table, host, key, expression, variables)
  {
    J.KeysOfOne(key, expression);
  }

  /** One operator over a list of truthy policy values: the operator is
      called with a policy value FIRST and the context value second. When
      no call throws, it holds iff it holds for one of the values; when one
      throws (ArnNotEquals on a string context value), the operator
      throws. */
  lemma OperatorOverValues(table: Table, host: C.Host, key: string, ck: string, values: seq<Value>, variables: Value)
    requires Lookup(table, key).Some?
    requires Lookup(table, key).value.BuiltinOp? ==>
      Lookup(table, key).value.variant.Plain? || Lookup(table, key).value.variant.IfExists?
    requires values != [] && forall j :: 0 <= j < |values| ==> J.Truthy(values[j])
    requires !variables.Undef? && !variables.Null?
    ensures Ctx.ContextValue(ck, variables).Ok?
    ensures (forall j :: 0 <= j < |values| ==>
               P.Call(host, Lookup(table, key).value, values[j], Ctx.ContextValue(ck, variables).value).Ok?) ==>
      ConditionHolds(table, host, key, J.Obj([J.Prop(ck, J.Arr(values))]), variables) ==
      Ok(exists j :: 0 <= j < |values| &&
           P.Truthy(P.Call(host, Lookup(table, key).value, values[j], Ctx.ContextValue(ck, variables).value)) == Ok(true))
    ensures (exists j :: 0 <= j < |values| &&
               P.Call(host, Lookup(table, key).value, values[j], Ctx.ContextValue(ck, variables).value).Err?) ==>
      ConditionHolds(table, host, key, J.Obj([J.Prop(ck, J.Arr(values))]), variables).Err?
  {
    PolicyValueCall(table, host, key, values[0], ck, J.Arr(values), variables);
    var c := Ctx.ContextValue(ck, variables).value;
    var o := Lookup(table, key).value;
    if forall j :: 0 <= j < |values| ==> P.Call(host, o, values[j], c).Ok? {
      OverValuesTotal(table, host, key, ck, values, variables);
    } else {
      var k :| 0 <= k < |values| && P.Call(host, o, values[k], c).Err?;
      OverValuesThrows(table, host, key, ck, values, variables, k);
    }
  }

  lemma OverValuesTotal(table: Table, host: C.Host, key: string, ck: string, values: seq<Value>, variables: Value)
    requires Lookup(table, key).Some?
    requires values != [] && forall j :: 0 <= j < |values| ==> J.Truthy(values[j])
    requires !variables.Undef? && !variables.Null?
    requires forall j :: 0 <= j < |values| ==>
      P.Call(host, Lookup(table, key).value, values[j], Ctx.ContextValue(ck, variables).value).Ok?
    ensures ConditionHolds(table, host, key, J.Obj([J.Prop(ck, J.Arr(values))]), variables) ==
      Ok(exists j :: 0 <= j < |values| &&
           P.Truthy(P.Call(host, Lookup(table, key).value, values[j], Ctx.ContextValue(ck, variables).value)) == Ok(true))
  {
    var expression := J.Obj([J.Prop(ck, J.Arr(values))]);
    var entry := FirstEntry(expression);
    assert PolicyValues(expression) == values;
    assert entry == Some((ck, J.Arr(values)));
    CallsAreTotal(table, host, key, ck, values, variables);
    var r := FindR(values, v => ConditionCall(table, host, key, v, entry, variables));
    assert r.Ok?;
    if r.value.Some? {
      assert J.Truthy(values[r.value.value]);
    }
  }

  lemma OverValuesThrows(table: Table, host: C.Host, key: string, ck: string, values: seq<Value>, variables: Value, k: nat)
    requires Lookup(table, key).Some?
    requires Lookup(table, key).value.BuiltinOp? ==>
      Lookup(table, key).value.variant.Plain? || Lookup(table, key).value.variant.IfExists?
    requires forall j :: 0 <= j < |values| ==> J.Truthy(values[j])
    requires !variables.Undef? && !variables.Null?
    requires k < |values| &&
      P.Call(host, Lookup(table, key).value, values[k], Ctx.ContextValue(ck, variables).value).Err?
    ensures ConditionHolds(table, host, key, J.Obj([J.Prop(ck, J.Arr(values))]), variables).Err?
  {
    var expression := J.Obj([J.Prop(ck, J.Arr(values))]);
    var entry := FirstEntry(expression);
    assert PolicyValues(expression) == values;
    assert entry == Some((ck, J.Arr(values)));
    var o := Lookup(table, key).value;
    var c := Ctx.ContextValue(ck, variables).value;
    assert o.BuiltinOp? && o.op == R.ArnNotEquals;
    var p := v => ConditionCall(table, host, key, v, entry, variables);
    PolicyValueCall(table, host, key, values[k], ck, J.Arr(values), variables);
    assert p(values[k]).Err?;
    forall j | 0 <= j < |values| ensures p(values[j]) != Ok(true) {
      PolicyValueCall(table, host, key, values[j], ck, J.Arr(values), variables);
      R.ArnNotEqualsNeverHolds(host, o.variant, values[j], c);
    }
  }

  /** A Condition block with one such operator is the outcome of that
      operator over its policy values. */
  lemma OneOperatorCondition(table: Table, host: C.Host, key: string, ck: string, values: seq<Value>, variables: Value)
    requires Lookup(table, key).Some?
    requires Lookup(table, key).value.BuiltinOp? ==>
      Lookup(table, key).value.variant.Plain? || Lookup(table, key).value.variant.IfExists?
    requires values != [] && forall j :: 0 <= j < |values| ==> J.Truthy(values[j])
    requires !variables.Undef? && !variables.Null?
    ensures Ctx.ContextValue(ck, variables).Ok?
    ensures (forall j :: 0 <= j < |values| ==>
               P.Call(host, Lookup(table, key).value, values[j], Ctx.ContextValue(ck, variables).value).Ok?) ==>
      EvaluateCondition(table, host, J.Obj([J.Prop(key, J.Obj([J.Prop(ck, J.Arr(values))]))]), variables) ==
      Ok(exists j :: 0 <= j < |values| &&
           P.Truthy(P.Call(host, Lookup(table, key).value, values[j], Ctx.ContextValue(ck, variables).value)) == Ok(true))
    ensures (exists j :: 0 <= j < |values| &&
               P.Call(host, Lookup(table, key).value, values[j], Ctx.ContextValue(ck, variables).value).Err?) ==>
      EvaluateCondition(table, host, J.Obj([J.Prop(key, J.Obj([J.Prop(ck, J.Arr(values))]))]), variables).Err?
  {
    SingleOperatorBlock(table, host, key, J.Obj([J.Prop(ck, J.Arr(values))]), variables);
    OperatorOverValues(table, host, key, ck, values, variables);
  }

  /** An operator name the table lacks throws as soon as there is a policy
      value to test. */
  lemma UnknownOperatorThrows(table: Table, host: C.Host, key: string, expression: Value, variables: Value)
    requires Lookup(table, key).None? && PolicyValues(expression) != []
    ensures EvaluateCondition(table, host, J.Obj([J.Prop(key, expression)]), variables).Err?
  {
    SingleOperatorBlock(table, host, key, expression, variables);
  }

  // ---------------------------------------------------------------------
  // The engine object (index.js:12-29).

  class Engine {
    var policies: seq<Value>
    /** `options.variables`: kept, but never read by `evaluate`. */
    const variables: Value
    /** `options.validate`: kept, but `add` does not validate. */
    const validate: bool
    const table: Table
    const host: C.Host

    constructor Init(variables: Value, validate: bool, table: Table, host: C.Host)
      ensures this.variables == variables && this.validate == validate
      ensures this.table == table && this.host == host && policies == []
    {
      this.variables := variables;
      this.validate := validate;
      this.table := table;
      this.host := host;
      policies := [];
    }

    /** `add(policies)`: one policy or a list of them, appended without any
        check. */
    method Add(p: Value)
      modifies this
      ensures policies == old(policies) + J.Wrap(p)
    {
      policies := policies + J.Wrap(p);
    }

    /** `evaluate(options)` over the policies held. */
    function Evaluate(options: Value): (r: Result<bool>)
      reads this
      ensures r == Ok(true) <==>
        (forall i :: 0 <= i < |P.Statements(policies)| ==>
           Applies(table, host, P.Statements(policies)[i], "Deny", RequestOf(options)) == Ok(false)) &&
        FirstApplies(table, host, P.Statements(policies), "Allow", RequestOf(options))
      ensures policies == [] ==> r == Ok(false)
    {
      DecisionMeaning(table, host, policies, options);
      Decide(table, host, policies, options)
    }
  }

  /** The stored `variables` option plays no part in a decision: two
      engines that differ only in it decide every request alike. */
  lemma StoredVariablesUnread(e1: Engine, e2: Engine, options: Value)
    requires e1.policies == e2.policies && e1.table == e2.table && e1.host == e2.host
    ensures e1.Evaluate(options) == e2.Evaluate(options)
  {
  }

  /** `new Engine(policies, options)`: options that are not a plain object
      count as `{}`; `custom` holds `options.conditions` when that is a plain
      object, and then replaces the built-in table. */
  method Create(policies: Value, options: Value, custom: Option<map<string, P.Custom>>, host: C.Host)
    returns (e: Engine)
    ensures fresh(e) && e.policies == J.Wrap(policies) && e.host == host
    ensures e.table == if custom.Some? then Customs(custom.value) else Builtins
    ensures e.variables == if J.SafeGet(options, "variables").Obj? then J.SafeGet(options, "variables") else J.Obj([])
    ensures e.validate == if J.SafeGet(options, "validate").Bool? then J.SafeGet(options, "validate").b else true
  {
    var vars := J.SafeGet(options, "variables");
    var validate := J.SafeGet(options, "validate");
    e := new Engine.Init(if vars.Obj? then vars else J.Obj([]),
                         if validate.Bool? then validate.b else true,
                         if custom.Some? then Customs(custom.value) else Builtins, host);
    e.Add(policies);
  }
}
