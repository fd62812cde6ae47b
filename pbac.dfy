/** The policy evaluator of pbac.js: the request defaults (lines 66-72),
    the search for an applicable statement (lines 88-109), the Principal,
    Action, Resource and Condition checks (lines 127-169), the decision
    (lines 73-86) and the evaluator object that holds the policies
    (lines 19-39, 50-65). */
module Pbac {
  import opened Results
  import J = JsValue
  import C = Conditions
  import R = Registry
  import opened Finds
  import Ctx = Context
  import Pattern

  type Value = J.Value

  /** A condition function supplied by the caller in `options.conditions`. */
  type Custom = (Value, Value) -> Value

  /** What `conditions[name]` holds. */
  datatype Operator = BuiltinOp(op: R.BaseOp, variant: R.Variant) | CustomOp(f: Custom)

  /** Foreign code and caller-supplied conditions the evaluator consults. */
  datatype Env = Env(host: C.Host, custom: map<string, Custom>)

  /** `Object.assign(options.conditions, conditions)`: the built-in table
      overwrites a caller's condition of the same name. */
  function Resolve(custom: map<string, Custom>, name: string): (r: Option<Operator>)
    ensures R.Builtin(name).Some? ==>
      r == Some(BuiltinOp(R.Builtin(name).value.0, R.Builtin(name).value.1))
    ensures R.Builtin(name).None? && name in custom ==> r == Some(CustomOp(custom[name]))
    ensures r.None? <==> R.Builtin(name).None? && name !in custom
  {
    match R.Builtin(name)
    case Some((op, v)) => Some(BuiltinOp(op, v))
    case None => if name in custom then Some(CustomOp(custom[name])) else None
  }

  /** `conditions[name].call(this, a, b)`. */
  function Call(host: C.Host, o: Operator, a: Value, b: Value): Result<Value> {
    match o
    case BuiltinOp(op, v) => R.Apply(host, op, v, a, b)
    case CustomOp(f) => Ok(f(a, b))
  }

  function Negate(r: Result<bool>): (n: Result<bool>)
    ensures r.Err? <==> n.Err?
    ensures r.Ok? ==> n == Ok(!r.value)
  {
    match r
    case Err(e) => Err(e)
    case Ok(b) => Ok(!b)
  }

  // ---------------------------------------------------------------------
  // The request.

  datatype Request = Request(action: Value, resource: Value, principal: Value, context: Value)

  /** An own property of `props` if it has one (even one set to undefined),
      else the default. */
  function Field(props: seq<J.Prop>, k: string, default: Value): (r: Value)
    ensures k !in J.Keys(props) ==> r == default
    ensures k in J.Keys(props) ==> r == J.Lookup(props, k)
  {
    if k in J.Keys(props) then J.Lookup(props, k) else default
  }

  /** `Object.assign({action: '', resource: '', principal: {}, context:
      options.variables || {}}, options || {})`; reading
      `options.variables` throws first when no options are given. */
  function RequestOf(options: Value): (r: Result<Request>)
    ensures r.Err? <==> options.Undef? || options.Null?
  {
    match J.Get(options, "variables")
    case Err(e) => Err(e)
    case Ok(variables) =>
      var props := if options.Obj? then options.props else [];
      Ok(Request(
        Field(props, "action", J.Str("")),
        Field(props, "resource", J.Str("")),
        Field(props, "principal", J.Obj([])),
        Field(props, "context", if J.Truthy(variables) then variables else J.Obj([]))))
  }

  /** The defaults: an empty action and resource, no principal, and
      `variables` as the context when no `context` is given. */
  lemma RequestDefaults(variables: Value)
    ensures RequestOf(J.Obj([])) == Ok(Request(J.Str(""), J.Str(""), J.Obj([]), J.Obj([])))
    ensures J.Truthy(variables) ==>
      RequestOf(J.Obj([J.Prop("variables", variables)])) ==
      Ok(Request(J.Str(""), J.Str(""), J.Obj([]), variables))
    ensures RequestOf(J.Obj([J.Prop("context", J.Undef), J.Prop("variables", variables)])).Ok?
    ensures RequestOf(J.Obj([J.Prop("context", J.Undef), J.Prop("variables", variables)])).value.context == J.Undef
  {
    J.KeysOfOne("variables", variables);
    assert J.Keys([J.Prop("context", J.Undef), J.Prop("variables", variables)]) == ["context", "variables"];
  }

  // ---------------------------------------------------------------------
  // The statements.

  /** `flow(map('Statement'), flatten)`: every policy's `Statement`, an
      array spread one level, anything else (even undefined) kept as it is. */
  function Statements(policies: seq<Value>): (r: seq<Value>)
    ensures forall s :: s in r ==>
      exists i :: 0 <= i < |policies| && s in J.Wrap(J.SafeGet(policies[i], "Statement"))
  {
    if policies == [] then []
    else
      var rest := Statements(policies[1..]);
      assert forall s :: s in rest ==>
        exists i :: 1 <= i < |policies| && s in J.Wrap(J.SafeGet(policies[i], "Statement")) by {
        forall s | s in rest
          ensures exists i :: 1 <= i < |policies| && s in J.Wrap(J.SafeGet(policies[i], "Statement"))
        {
          var i :| 0 <= i < |policies[1..]| && s in J.Wrap(J.SafeGet(policies[1..][i], "Statement"));
          assert policies[1..][i] == policies[i + 1];
        }
      }
      J.Wrap(J.SafeGet(policies[0], "Statement")) + rest
  }

  lemma {:induction false} StatementsAppend(ps: seq<Value>, qs: seq<Value>)
    ensures Statements(ps + qs) == Statements(ps) + Statements(qs)
  {
    if ps == [] {
      assert ps + qs == qs;
    } else {
      assert (ps + qs)[0] == ps[0];
      assert (ps + qs)[1..] == ps[1..] + qs;
      StatementsAppend(ps[1..], qs);
    }
  }

  // ---------------------------------------------------------------------
  // Principal (pbac.js:127-137).

  /** One key of the request principal: an empty list (or any empty value)
      never matches; otherwise some listed principal must equal some request
      identifier. */
  function PrincipalKeyMatches(host: C.Host, principals: Value, reference: Value, key: string): Result<bool> {
    var want := J.SafeGet(reference, key);
    if J.IsEmpty(want) then Ok(false)
    else
      match R.Apply(host, R.StringEquals, R.ForAnyValue, J.SafeGet(principals, key), want)
      case Err(e) => Err(e)
      case Ok(v) => Ok(J.Truthy(v))
  }

  /** The first key of the request principal that matches, tested for
      truthiness (a key named "" does not count). */
  function EvaluatePrincipal(host: C.Host, principals: Value, reference: Value): (r: Result<bool>)
    ensures reference.Undef? || reference.Null? ==> r.Err?
    ensures r == Ok(true) ==> reference.Obj?
    ensures r == Ok(true) ==>
      exists i :: 0 <= i < |reference.props| && reference.props[i].key != "" &&
        PrincipalKeyMatches(host, principals, reference, reference.props[i].key) == Ok(true)
  {
    match J.OwnKeys(reference)
    case Err(e) => Err(e)
    case Ok(keys) =>
      match FindR(keys, key => PrincipalKeyMatches(host, principals, reference, key))
      case Err(e) => Err(e)
      case Ok(None) => Ok(false)
      case Ok(Some(i)) => Ok(keys[i] != "")
  }

  /** Some key of the request principal for which EVERY principal the
      statement lists under that key is among the request's identifiers. */
  function NotPrincipalKeyMatches(host: C.Host, principals: Value, reference: Value, key: string): Result<bool> {
    match R.Apply(host, R.StringEquals, R.ForAllValues, J.SafeGet(principals, key), J.SafeGet(reference, key))
    case Err(e) => Err(e)
    case Ok(v) => Ok(J.Truthy(v))
  }

  function EvaluateNotPrincipal(host: C.Host, principals: Value, reference: Value): (r: Result<bool>)
    ensures reference.Undef? || reference.Null? ==> r.Err?
    ensures r == Ok(true) ==> reference.Obj?
    ensures r == Ok(true) ==>
      exists i :: 0 <= i < |reference.props| && reference.props[i].key != "" &&
        NotPrincipalKeyMatches(host, principals, reference, reference.props[i].key) == Ok(true)
  {
    match J.OwnKeys(reference)
    case Err(e) => Err(e)
    case Ok(keys) =>
      match FindR(keys, key => NotPrincipalKeyMatches(host, principals, reference, key))
      case Err(e) => Err(e)
      case Ok(None) => Ok(false)
      case Ok(Some(i)) => Ok(keys[i] != "")
  }

  // ---------------------------------------------------------------------
  // Action and Resource (pbac.js:138-149).

  /** `actions.find(action => StringLike(reference, action))`, tested for
      truthiness; only an array has `find`. */
  function EvaluateAction(actions: Value, reference: Value): (r: Result<bool>)
    ensures r.Err? <==> !actions.Arr?
    ensures r == Ok(true) ==> exists i :: 0 <= i < |actions.elems| && C.StringLike(reference, actions.elems[i])
  {
    if !actions.Arr? then Err("TypeError: actions.find is not a function")
    else
      var i := FindIndex(actions.elems, a => C.StringLike(reference, a));
      Ok(i.Some? && J.Truthy(actions.elems[i.value]))
  }

  /** One resource pattern, its placeholders filled from the context, tested
      against the request resource; only a string has `replace`. */
  function ResourceMatches(entry: Value, reference: Value, context: Value): (r: Result<bool>)
    ensures !entry.Str? ==> r.Err?
  {
    if !entry.Str? then Err("TypeError: resource.replace is not a function")
    else
      match Ctx.Interpolate(entry.s, context)
      case Err(e) => Err(e)
      case Ok(pattern) => Ok(C.StringLike(reference, J.Str(pattern)))
  }

  function EvaluateResource(resources: Value, reference: Value, context: Value): (r: Result<bool>)
    ensures r == Ok(true) ==>
      exists i :: 0 <= i < |J.Wrap(resources)| &&
        J.Wrap(resources)[i].Str? && J.Wrap(resources)[i].s != "" &&
        ResourceMatches(J.Wrap(resources)[i], reference, context) == Ok(true)
  {
    var entries := J.Wrap(resources);
    match FindR(entries, e => ResourceMatches(e, reference, context))
    case Err(e) => Err(e)
    case Ok(None) => Ok(false)
    case Ok(Some(i)) => Ok(J.Truthy(entries[i]))
  }

  // ---------------------------------------------------------------------
  // Condition (pbac.js:150-169).

  /** Whether the operator name carries a `ForAnyValue:` or `ForAllValues:`
      prefix: the text before its first colon, if it has one. */
  predicate IsQuantified(key: string) {
    ':' in key && (Ctx.Before(key) == "ForAnyValue" || Ctx.Before(key) == "ForAllValues")
  }

  /** One operator of a Condition block: `{ key: { contextKey: values } }`.
      Only the first context key is read; the operator is looked up when it
      is first called and throws if it is not in the table. */
  function ConditionHolds(env: Env, key: string, expression: Value, context: Value): Result<bool> {
    match J.OwnKeys(expression)
    case Err(e) => Err(e)
    case Ok(ks) =>
      OperatorHolds(env, key, ks, J.Wrap(J.SafeGet(expression, if ks == [] then "undefined" else ks[0])), context)
  }

  /** The rest of one operator, once its context keys `ks` and the policy
      values under the first of them are read. */
  function OperatorHolds(env: Env, key: string, ks: seq<string>, values: seq<Value>, context: Value): Result<bool> {
    if !IsQuantified(key) && values == [] then Ok(false)
    else
      match Resolve(env.custom, key)
      case None => Err("TypeError: Cannot read property 'call' of undefined")
      case Some(o) =>
        if ks == [] then Err("TypeError: Cannot read property 'split' of undefined")
        else
          match Ctx.ContextValue(ks[0], context)
          case Err(e) => Err(e)
          case Ok(a) => ApplyOperator(env.host, o, IsQuantified(key), a, values)
  }

  /** A quantified operator is called once with the whole list of policy
      values; any other is called with each policy value until one holds,
      and that value must be truthy. */
  function ApplyOperator(host: C.Host, o: Operator, quantified: bool, a: Value, values: seq<Value>): Result<bool> {
    if quantified then Truthy(Call(host, o, a, J.Arr(values)))
    else
      match FindR(values, b => Truthy(Call(host, o, a, b)))
      case Err(e) => Err(e)
      case Ok(None) => Ok(false)
      case Ok(Some(i)) => Ok(J.Truthy(values[i]))
  }

  function Truthy(r: Result<Value>): (t: Result<bool>)
    ensures r.Err? <==> t.Err?
    ensures r.Ok? ==> t == Ok(J.Truthy(r.value))
  {
    match r
    case Err(e) => Err(e)
    case Ok(v) => Ok(J.Truthy(v))
  }

  /** A Condition that is not a plain object holds; otherwise every
      operator in it must hold. */
  function EvaluateCondition(env: Env, condition: Value, context: Value): (r: Result<bool>)
    ensures !condition.Obj? ==> r == Ok(true)
    ensures condition.Obj? ==>
      (r == Ok(true) <==> forall i :: 0 <= i < |condition.props| ==>
        ConditionHolds(env, condition.props[i].key, J.Lookup(condition.props, condition.props[i].key), context) == Ok(true))
  {
    if !condition.Obj? then Ok(true)
    else
      EveryR(J.Keys(condition.props),
        key => ConditionHolds(env, key, J.Lookup(condition.props, key), context))
  }

  // ---------------------------------------------------------------------
  // A statement (pbac.js:92-107).

  /** The checks of a statement, in the order they are made. */
  datatype Clause = PrincipalClause | NotPrincipalClause | ResourceClause | NotResourceClause
                  | ActionClause | NotActionClause | ConditionClause

  const Clauses: seq<Clause> := [PrincipalClause, NotPrincipalClause, ResourceClause, NotResourceClause,
                                 ActionClause, NotActionClause, ConditionClause]

  /** Whether a statement passes one check. A clause the statement leaves
      out (or sets to a falsy value) passes, except Condition, which passes
      when it is not a plain object. */
  function ClausePasses(env: Env, stmt: Value, req: Request, c: Clause): Result<bool> {
    match c
    case PrincipalClause =>
      var v := J.SafeGet(stmt, "Principal");
      if !J.Truthy(v) then Ok(true) else EvaluatePrincipal(env.host, v, req.principal)
    case NotPrincipalClause =>
      var v := J.SafeGet(stmt, "NotPrincipal");
      if !J.Truthy(v) then Ok(true) else Negate(EvaluateNotPrincipal(env.host, v, req.principal))
    case ResourceClause =>
      var v := J.SafeGet(stmt, "Resource");
      if !J.Truthy(v) then Ok(true) else EvaluateResource(v, req.resource, req.context)
    case NotResourceClause =>
      var v := J.SafeGet(stmt, "NotResource");
      if !J.Truthy(v) then Ok(true) else Negate(EvaluateResource(v, req.resource, req.context))
    case ActionClause =>
      var v := J.SafeGet(stmt, "Action");
      if !J.Truthy(v) then Ok(true) else EvaluateAction(v, req.action)
    case NotActionClause =>
      var v := J.SafeGet(stmt, "NotAction");
      if !J.Truthy(v) then Ok(true) else Negate(EvaluateAction(v, req.action))
    case ConditionClause =>
      EvaluateCondition(env, J.SafeGet(stmt, "Condition"), req.context)
  }

  /** The `find` callback of filterPoliciesBy: the statement has the effect
      asked for and passes every check; reading `Effect` of an undefined or
      null statement throws. */
  function Applies(env: Env, stmt: Value, effect: string, req: Request): (r: Result<bool>)
    ensures stmt.Undef? || stmt.Null? ==> r.Err?
    ensures r == Ok(true) ==> stmt.Obj? && J.Lookup(stmt.props, "Effect") == J.Str(effect)
    ensures r == Ok(true) ==> forall c :: c in Clauses ==> ClausePasses(env, stmt, req, c) == Ok(true)
  {
    match J.Get(stmt, "Effect")
    case Err(e) => Err(e)
    case Ok(e) =>
      if e != J.Str(effect) then Ok(false)
      else EveryR(Clauses, c => ClausePasses(env, stmt, req, c))
  }

  /** Whether some statement applies: the first statement whose callback
      does not return false decides, and an exception on the way is
      passed on. */
  function FilterPoliciesBy(env: Env, policies: seq<Value>, effect: string, req: Request): (r: Result<bool>)
    ensures r == Ok(false) <==>
      forall i :: 0 <= i < |Statements(policies)| ==> Applies(env, Statements(policies)[i], effect, req) == Ok(false)
  {
    var stmts := Statements(policies);
    match FindR(stmts, s => Applies(env, s, effect, req))
    case Err(e) => Err(e)
    case Ok(None) => Ok(false)
    case Ok(Some(i)) => Ok(J.Truthy(stmts[i]))
  }

  /** `evaluate(options)`: false if a Deny statement applies, else whether
      an Allow statement applies. */
  function Decide(env: Env, policies: seq<Value>, options: Value): Result<bool> {
    match RequestOf(options)
    case Err(e) => Err(e)
    case Ok(req) =>
      match FilterPoliciesBy(env, policies, "Deny", req)
      case Err(e) => Err(e)
      case Ok(true) => Ok(false)
      case Ok(false) => FilterPoliciesBy(env, policies, "Allow", req)
  }

  // ---------------------------------------------------------------------
  // The decision.

  /** The statement `find` stops at, for one effect: it applies, and every
      statement before it does not. */
  ghost predicate FirstApplies(env: Env, stmts: seq<Value>, effect: string, req: Request) {
    FirstAccepted(stmts, s => Applies(env, s, effect, req))
  }

  /** No statement applies for that effect, and none throws. */
  predicate NoneApplies(env: Env, stmts: seq<Value>, effect: string, req: Request) {
    forall i :: 0 <= i < |stmts| ==> Applies(env, stmts[i], effect, req) == Ok(false)
  }

  /** filterPoliciesBy finds something exactly when a statement applies
      before any statement throws, and nothing exactly when none applies. */
  lemma FilterMeaning(env: Env, policies: seq<Value>, effect: string, req: Request)
    ensures FilterPoliciesBy(env, policies, effect, req) == Ok(true) <==>
      FirstApplies(env, Statements(policies), effect, req)
    ensures FilterPoliciesBy(env, policies, effect, req) == Ok(false) <==>
      NoneApplies(env, Statements(policies), effect, req)
  {
    FindRHits(Statements(policies), s => Applies(env, s, effect, req));
  }

  /** A request is allowed exactly when no Deny statement applies (and none
      throws), and an Allow statement applies before any Allow statement
      throws. */
  lemma DecisionMeaning(env: Env, policies: seq<Value>, options: Value)
    ensures Decide(env, policies, options) == Ok(true) <==>
      RequestOf(options).Ok? &&
      NoneApplies(env, Statements(policies), "Deny", RequestOf(options).value) &&
      FirstApplies(env, Statements(policies), "Allow", RequestOf(options).value)
  {
    if RequestOf(options).Ok? {
      FilterMeaning(env, policies, "Deny", RequestOf(options).value);
      FilterMeaning(env, policies, "Allow", RequestOf(options).value);
    }
  }

  /** An applicable Deny statement wins over any Allow statement. */
  lemma DenyOverrides(env: Env, policies: seq<Value>, options: Value)
    requires RequestOf(options).Ok?
    requires FirstApplies(env, Statements(policies), "Deny", RequestOf(options).value)
    ensures Decide(env, policies, options) == Ok(false)
  {
    FilterMeaning(env, policies, "Deny", RequestOf(options).value);
  }

  /** Without an applicable Allow statement nothing is allowed; in
      particular an evaluator without policies allows nothing. */
  lemma DefaultDeny(env: Env, policies: seq<Value>, options: Value)
    ensures RequestOf(options).Ok? && NoneApplies(env, Statements(policies), "Allow", RequestOf(options).value) ==>
      Decide(env, policies, options) != Ok(true)
    ensures !options.Undef? && !options.Null? ==> Decide(env, [], options) == Ok(false)
  {
    if RequestOf(options).Ok? {
      FilterMeaning(env, policies, "Allow", RequestOf(options).value);
    }
  }

  /** Once a Deny statement applies, adding policies after it cannot
      allow the request. */
  lemma DenyPersists(env: Env, policies: seq<Value>, more: seq<Value>, options: Value)
    requires RequestOf(options).Ok?
    requires FirstApplies(env, Statements(policies), "Deny", RequestOf(options).value)
    ensures Decide(env, policies + more, options) == Ok(false)
  {
    var req := RequestOf(options).value;
    FilterMeaning(env, policies, "Deny", req);
    StatementsAppend(policies, more);
    FindRPrefix(Statements(policies), Statements(more), s => Applies(env, s, "Deny", req));
  }

  // ---------------------------------------------------------------------
  // What each check of a statement means.

  /** The property a clause reads. */
  function ClauseKey(c: Clause): string {
    match c
    case PrincipalClause => "Principal"
    case NotPrincipalClause => "NotPrincipal"
    case ResourceClause => "Resource"
    case NotResourceClause => "NotResource"
    case ActionClause => "Action"
    case NotActionClause => "NotAction"
    case ConditionClause => "Condition"
  }

  /** A clause the statement leaves out imposes nothing. */
  lemma AbsentClausePasses(env: Env, stmt: Value, req: Request, c: Clause)
    requires J.SafeGet(stmt, ClauseKey(c)).Undef?
    ensures ClausePasses(env, stmt, req, c) == Ok(true)
  {
  }

  /** A statement of the right effect that leaves every clause out applies
      to every request; a statement of another effect never applies. */
  lemma AbsentClausesImposeNothing(env: Env, stmt: Value, effect: string, other: string, req: Request)
    requires stmt.Obj? && J.Lookup(stmt.props, "Effect") == J.Str(effect) && other != effect
    requires forall c :: J.SafeGet(stmt, ClauseKey(c)).Undef?
    ensures Applies(env, stmt, effect, req) == Ok(true)
    ensures Applies(env, stmt, other, req) == Ok(false)
  {
    forall c | c in Clauses ensures ClausePasses(env, stmt, req, c) == Ok(true) {
      AbsentClausePasses(env, stmt, req, c);
    }
  }

  /** `{ "Effect": effect }` is such a statement. */
  lemma EffectOnlyStatement(env: Env, effect: string, other: string, req: Request)
    requires other != effect
    ensures Applies(env, J.Obj([J.Prop("Effect", J.Str(effect))]), effect, req) == Ok(true)
    ensures Applies(env, J.Obj([J.Prop("Effect", J.Str(effect))]), other, req) == Ok(false)
  {
    var stmt := J.Obj([J.Prop("Effect", J.Str(effect))]);
    forall c ensures J.SafeGet(stmt, ClauseKey(c)).Undef? {
      assert ClauseKey(c) != "Effect";
    }
    AbsentClausesImposeNothing(env, stmt, effect, other, req);
  }

  /** The statement lists under `k` a principal that is among `ids`. */
  predicate SharesIdentifier(principals: Value, k: string, ids: seq<Value>) {
    exists x :: x in J.Wrap(J.SafeGet(principals, k)) && x.Str? && x.s != "" && x in ids
  }

  /** A request principal whose principal types each carry a non-empty
      identifier list meets a statement's Principal iff, for one of those
      types, the statement lists one of the request's identifiers. */
  lemma PrincipalMeaning(host: C.Host, principals: Value, props: seq<J.Prop>)
    requires J.DistinctKeys(props)
    requires forall i :: 0 <= i < |props| ==>
      props[i].key != "" && props[i].val.Arr? && props[i].val.elems != []
    ensures EvaluatePrincipal(host, principals, J.Obj(props)) ==
      Ok(exists i :: 0 <= i < |props| && SharesIdentifier(principals, props[i].key, props[i].val.elems))
  {
    var keys := J.Keys(props);
    var p := key => PrincipalKeyMatches(host, principals, J.Obj(props), key);
    var q := key => SharesUnder(principals, props, key);
    PrincipalKeys(host, principals, props);
    FindROfTotal(keys, p, q);
  }

  /** The statement lists one of the request's identifiers under `key`. */
  predicate SharesUnder(principals: Value, props: seq<J.Prop>, key: string) {
    J.Lookup(props, key).Arr? && SharesIdentifier(principals, key, J.Lookup(props, key).elems)
  }

  lemma PrincipalKeys(host: C.Host, principals: Value, props: seq<J.Prop>)
    requires J.DistinctKeys(props)
    requires forall i :: 0 <= i < |props| ==> props[i].val.Arr? && props[i].val.elems != []
    ensures forall i :: 0 <= i < |props| ==>
      PrincipalKeyMatches(host, principals, J.Obj(props), props[i].key) == Ok(SharesUnder(principals, props, props[i].key))
    ensures forall i :: 0 <= i < |props| ==>
      SharesUnder(principals, props, props[i].key) == SharesIdentifier(principals, props[i].key, props[i].val.elems)
  {
    forall i | 0 <= i < |props|
      ensures PrincipalKeyMatches(host, principals, J.Obj(props), props[i].key) == Ok(SharesUnder(principals, props, props[i].key))
      ensures SharesUnder(principals, props, props[i].key) == SharesIdentifier(principals, props[i].key, props[i].val.elems)
    {
      PrincipalKey(host, principals, props, i);
    }
  }

  lemma PrincipalKey(host: C.Host, principals: Value, props: seq<J.Prop>, i: nat)
    requires J.DistinctKeys(props) && i < |props| && props[i].val.Arr? && props[i].val.elems != []
    ensures J.Lookup(props, props[i].key) == props[i].val
    ensures PrincipalKeyMatches(host, principals, J.Obj(props), props[i].key) ==
      Ok(SharesIdentifier(principals, props[i].key, props[i].val.elems))
  {
    J.LookupDistinct(props, i);
    PrincipalKeyIs(host, principals, J.Obj(props), props[i].key, props[i].val.elems);
  }

  lemma PrincipalKeyIs(host: C.Host, principals: Value, reference: Value, key: string, ids: seq<Value>)
    requires ids != [] && J.SafeGet(reference, key) == J.Arr(ids)
    ensures PrincipalKeyMatches(host, principals, reference, key) == Ok(SharesIdentifier(principals, key, ids))
  {
    R.ForAnyStringEquals(host, J.SafeGet(principals, key), ids);
  }

  /** `principals[key]` reads a string Principal by index: a request
      principal whose type is the decimal text of `i` and whose one
      identifier is the character there meets it. */
  lemma IndexedPrincipal(host: C.Host, s: string, i: nat)
    requires i < |s|
    ensures EvaluatePrincipal(host, J.Str(s), J.Obj([J.Prop(J.NatText(i), J.Arr([J.Str([s[i]])]))])) == Ok(true)
  {
    var id := J.Str([s[i]]);
    J.IndexRead(J.Str(s), i);
    PrincipalMeaning(host, J.Str(s), [J.Prop(J.NatText(i), J.Arr([id]))]);
    assert id in J.Wrap(J.SafeGet(J.Str(s), J.NatText(i)));
  }

  /** An empty identifier list in the request never meets a Principal. */
  lemma EmptyPrincipalNeverMatches(host: C.Host, principals: Value, k: string)
    ensures EvaluatePrincipal(host, principals, J.Obj([J.Prop(k, J.Arr([]))])) == Ok(false)
  {
    J.KeysOfOne(k, J.Arr([]));
  }

  /** Every principal the statement lists under `k` is among `ids`. */
  predicate CoversAll(principals: Value, k: string, ids: seq<Value>) {
    forall x :: x in J.Wrap(J.SafeGet(principals, k)) ==> x.Str? && x.s != "" && x in ids
  }

  /** NotPrincipal excludes a request iff, for one of its principal types,
      the request's identifier list contains EVERY principal the statement
      lists under that type. */
  lemma NotPrincipalMeaning(host: C.Host, principals: Value, props: seq<J.Prop>)
    requires J.DistinctKeys(props)
    requires forall i :: 0 <= i < |props| ==> props[i].key != "" && props[i].val.Arr?
    ensures EvaluateNotPrincipal(host, principals, J.Obj(props)) ==
      Ok(exists i :: 0 <= i < |props| && CoversAll(principals, props[i].key, props[i].val.elems))
  {
    var keys := J.Keys(props);
    var p := key => NotPrincipalKeyMatches(host, principals, J.Obj(props), key);
    var q := key => CoversUnder(principals, props, key);
    NotPrincipalKeys(host, principals, props);
    FindROfTotal(keys, p, q);
  }

  /** `principals[key]` reads an array NotPrincipal by index: a request
      whose type is the decimal text of `i` and whose identifiers include
      the string element there is excluded. */
  lemma IndexedNotPrincipal(host: C.Host, e: seq<Value>, i: nat)
    requires i < |e| && e[i].Str? && e[i].s != ""
    ensures EvaluateNotPrincipal(host, J.Arr(e), J.Obj([J.Prop(J.NatText(i), J.Arr([e[i]]))])) == Ok(true)
  {
    J.IndexRead(J.Arr(e), i);
    assert J.SafeGet(J.Arr(e), J.NatText(i)) == e[i];
    assert CoversAll(J.Arr(e), J.NatText(i), [e[i]]);
    NotPrincipalMeaning(host, J.Arr(e), [J.Prop(J.NatText(i), J.Arr([e[i]]))]);
  }

  /** Every principal the statement lists under `key` is among the
      request's identifiers for that key. */
  predicate CoversUnder(principals: Value, props: seq<J.Prop>, key: string) {
    J.Lookup(props, key).Arr? && CoversAll(principals, key, J.Lookup(props, key).elems)
  }

  lemma NotPrincipalKeys(host: C.Host, principals: Value, props: seq<J.Prop>)
    requires J.DistinctKeys(props)
    requires forall i :: 0 <= i < |props| ==> props[i].val.Arr?
    ensures forall i :: 0 <= i < |props| ==>
      NotPrincipalKeyMatches(host, principals, J.Obj(props), props[i].key) == Ok(CoversUnder(principals, props, props[i].key))
    ensures forall i :: 0 <= i < |props| ==>
      CoversUnder(principals, props, props[i].key) == CoversAll(principals, props[i].key, props[i].val.elems)
  {
    forall i | 0 <= i < |props|
      ensures NotPrincipalKeyMatches(host, principals, J.Obj(props), props[i].key) == Ok(CoversUnder(principals, props, props[i].key))
      ensures CoversUnder(principals, props, props[i].key) == CoversAll(principals, props[i].key, props[i].val.elems)
    {
      NotPrincipalKey(host, principals, props, i);
    }
  }

  lemma NotPrincipalKey(host: C.Host, principals: Value, props: seq<J.Prop>, i: nat)
    requires J.DistinctKeys(props) && i < |props| && props[i].val.Arr?
    ensures J.Lookup(props, props[i].key) == props[i].val
    ensures NotPrincipalKeyMatches(host, principals, J.Obj(props), props[i].key) ==
      Ok(CoversAll(principals, props[i].key, props[i].val.elems))
  {
    J.LookupDistinct(props, i);
    NotPrincipalKeyIs(host, principals, J.Obj(props), props[i].key, props[i].val.elems);
  }

  lemma NotPrincipalKeyIs(host: C.Host, principals: Value, reference: Value, key: string, ids: seq<Value>)
    requires J.SafeGet(reference, key) == J.Arr(ids)
    ensures NotPrincipalKeyMatches(host, principals, reference, key) == Ok(CoversAll(principals, key, ids))
  {
    R.ForAllStringEquals(host, J.SafeGet(principals, key), ids);
  }

  /** With action patterns that are non-empty strings, Action holds iff
      one of the patterns matches the request action. */
  lemma ActionMeaning(patterns: seq<Value>, action: Value)
    requires forall i :: 0 <= i < |patterns| ==> patterns[i].Str? && patterns[i].s != ""
    ensures EvaluateAction(J.Arr(patterns), action) ==
      Ok(exists i :: 0 <= i < |patterns| && C.StringLike(action, patterns[i]))
  {
  }

  /** The action wildcard `"*"` matches every action text without a line
      terminator. */
  lemma ActionWildcard(action: string)
    ensures EvaluateAction(J.Arr([J.Str("*")]), J.Str(action)) == Ok(Pattern.NoLineTerminators(action))
  {
    C.LoneStar(J.Str(action));
  }

  /** With resource patterns that are non-empty strings without `$`,
      Resource holds iff one of the patterns matches the request resource. */
  lemma ResourceMeaning(patterns: seq<Value>, resource: Value, context: Value)
    requires forall i :: 0 <= i < |patterns| ==> patterns[i].Str? && patterns[i].s != "" && '$' !in patterns[i].s
    ensures EvaluateResource(J.Arr(patterns), resource, context) ==
      Ok(exists i :: 0 <= i < |patterns| && C.StringLike(resource, patterns[i]))
  {
    var p := e => ResourceMatches(e, resource, context);
    var q := e => C.StringLike(resource, e);
    forall i | 0 <= i < |patterns| ensures p(patterns[i]) == Ok(q(patterns[i])) {
      Ctx.NoPlaceholder(patterns[i].s, context);
    }
    FindROfTotal(patterns, p, q);
  }

  /** A resource pattern with one `${namespace:name}` placeholder is the
      pattern with the context value's text in its place (the key itself
      when the context has no such value). */
  lemma ResourceVariable(pre: string, key: string, post: string, resource: Value, context: Value)
    requires '$' !in pre && '$' !in post
    requires key != [] && '}' !in key && forall c :: c in key ==> !Pattern.IsLineTerminator(c)
    requires !context.Undef? && !context.Null?
    ensures Ctx.ContextValue(key, context).Ok?
    ensures EvaluateResource(J.Str(pre + "${" + key + "}" + post), resource, context) ==
      Ok(C.StringLike(resource, J.Str(pre + J.JsText(Ctx.ContextValue(key, context).value) + post)))
  {
    var w := pre + "${" + key + "}" + post;
    OneResource(w, resource, context);
    Ctx.OnePlaceholder(pre, key, post, context);
  }

  /** A lone non-empty resource pattern is matched as it is. */
  lemma OneResource(pattern: string, resource: Value, context: Value)
    requires pattern != []
    ensures EvaluateResource(J.Str(pattern), resource, context) == ResourceMatches(J.Str(pattern), resource, context)
  {
    FindROne(J.Str(pattern), e => ResourceMatches(e, resource, context));
  }

  /** The quantified variants are exactly the names with a quantifier
      prefix. */
  lemma QuantifiedNames(op: R.BaseOp, v: R.Variant)
    ensures v.ForAllValues? || v.ForAnyValue? ==> IsQuantified(R.OperatorName(op, v))
  {
    if v.ForAllValues? || v.ForAnyValue? {
      PrefixedIsQuantified(v, R.Name(op));
    }
  }

  lemma PrefixedIsQuantified(v: R.Variant, base: string)
    requires v.ForAllValues? || v.ForAnyValue?
    ensures IsQuantified(R.Decorate(base, v))
  {
    var ns := if v.ForAllValues? then "ForAllValues" else "ForAnyValue";
    var name := ns + [':'] + base;
    assert R.Decorate(base, v) == name;
    Ctx.BeforeColon(ns, base);
    assert name[|ns|] == ':';
  }

  /** A Condition block with one operator is that operator's outcome. */
  lemma SingleOperatorBlock(env: Env, key: string, expression: Value, context: Value)
    ensures EvaluateCondition(env, J.Obj([J.Prop(key, expression)]), context) ==
      ConditionHolds(env, key, expression, context)
  {
    J.KeysOfOne(key, expression);
  }

  /** An expression with one context key hands its context value and its
      policy values to the operator. */
  lemma SingleContextKey(env: Env, key: string, ck: string, values: seq<Value>, context: Value)
    requires !context.Undef? && !context.Null?
    requires Resolve(env.custom, key).Some? && (values != [] || IsQuantified(key))
    ensures Ctx.ContextValue(ck, context).Ok?
    ensures ConditionHolds(env, key, J.Obj([J.Prop(ck, J.Arr(values))]), context) ==
      ApplyOperator(env.host, Resolve(env.custom, key).value, IsQuantified(key),
                    Ctx.ContextValue(ck, context).value, values)
  {
    J.KeysOfOne(ck, J.Arr(values));
  }

  /** One unquantified operator over one context key: when no call throws,
      it holds iff the operator holds between the context value and some
      policy value (policy values are taken to be truthy, as a false or 0
      match does not count); when a call throws (ArnNotEquals on a string
      pattern), the Condition throws. */
  lemma OneOperatorCondition(env: Env, key: string, ck: string, values: seq<Value>, context: Value)
    requires Resolve(env.custom, key).Some? && !IsQuantified(key)
    requires values != [] && forall j :: 0 <= j < |values| ==> J.Truthy(values[j])
    requires !context.Undef? && !context.Null?
    ensures Ctx.ContextValue(ck, context).Ok?
    ensures (forall j :: 0 <= j < |values| ==>
               Call(env.host, Resolve(env.custom, key).value, Ctx.ContextValue(ck, context).value, values[j]).Ok?) ==>
      EvaluateCondition(env, J.Obj([J.Prop(key, J.Obj([J.Prop(ck, J.Arr(values))]))]), context) ==
      Ok(exists j :: 0 <= j < |values| &&
           Truthy(Call(env.host, Resolve(env.custom, key).value, Ctx.ContextValue(ck, context).value, values[j])) == Ok(true))
    ensures (exists j :: 0 <= j < |values| &&
               Call(env.host, Resolve(env.custom, key).value, Ctx.ContextValue(ck, context).value, values[j]).Err?) ==>
      EvaluateCondition(env, J.Obj([J.Prop(key, J.Obj([J.Prop(ck, J.Arr(values))]))]), context).Err?
  {
    var o := Resolve(env.custom, key).value;
    if o.BuiltinOp? {
      R.FoundIsDecorated(key, o.op, o.variant);
      QuantifiedNames(o.op, o.variant);
    }
    SingleOperatorBlock(env, key, J.Obj([J.Prop(ck, J.Arr(values))]), context);
    SingleContextKey(env, key, ck, values, context);
    UnquantifiedOperator(env.host, o, Ctx.ContextValue(ck, context).value, values);
  }

  /** An operator that is not a quantified built-in, called over a list of
      truthy policy values: when no call throws, it holds iff it holds for
      one value; a call that throws (only ArnNotEquals on a string pattern
      does) makes the whole operator throw, since ArnNotEquals accepts no
      value before it. */
  lemma UnquantifiedOperator(host: C.Host, o: Operator, a: Value, values: seq<Value>)
    requires o.BuiltinOp? ==> o.variant.Plain? || o.variant.IfExists?
    requires forall j :: 0 <= j < |values| ==> J.Truthy(values[j])
    ensures (forall j :: 0 <= j < |values| ==> Call(host, o, a, values[j]).Ok?) ==>
      ApplyOperator(host, o, false, a, values) ==
      Ok(exists j :: 0 <= j < |values| && Truthy(Call(host, o, a, values[j])) == Ok(true))
    ensures (exists j :: 0 <= j < |values| && Call(host, o, a, values[j]).Err?) ==>
      ApplyOperator(host, o, false, a, values).Err?
  {
    if forall j :: 0 <= j < |values| ==> Call(host, o, a, values[j]).Ok? {
      UnquantifiedTotal(host, o, a, values);
    } else {
      var k :| 0 <= k < |values| && Call(host, o, a, values[k]).Err?;
      UnquantifiedThrows(host, o, a, values, k);
    }
  }

  lemma UnquantifiedTotal(host: C.Host, o: Operator, a: Value, values: seq<Value>)
    requires forall j :: 0 <= j < |values| ==> J.Truthy(values[j])
    requires forall j :: 0 <= j < |values| ==> Call(host, o, a, values[j]).Ok?
    ensures ApplyOperator(host, o, false, a, values) ==
      Ok(exists j :: 0 <= j < |values| && Truthy(Call(host, o, a, values[j])) == Ok(true))
  {
    var p := b => Truthy(Call(host, o, a, b));
    var q := b => Truthy(Call(host, o, a, b)) == Ok(true);
    forall j | 0 <= j < |values| ensures p(values[j]) == Ok(q(values[j])) {
    }
    FindROfTotal(values, p, q);
  }

  lemma UnquantifiedThrows(host: C.Host, o: Operator, a: Value, values: seq<Value>, k: nat)
    requires o.BuiltinOp? ==> o.variant.Plain? || o.variant.IfExists?
    requires k < |values| && Call(host, o, a, values[k]).Err?
    ensures ApplyOperator(host, o, false, a, values).Err?
  {
    var p := b => Truthy(Call(host, o, a, b));
    assert o.BuiltinOp? && o.op == R.ArnNotEquals;
    assert !(o.variant.IfExists? && a.Undef?);
    assert p(values[k]).Err?;
    forall j | 0 <= j < |values| ensures p(values[j]) != Ok(true) {
      R.ArnNotEqualsNeverHolds(host, o.variant, a, values[j]);
    }
    FindRThrows(values, p, k);
  }

  /** A quantified operator is given the context value and the whole list
      of policy values. */
  lemma QuantifiedCondition(env: Env, op: R.BaseOp, v: R.Variant, ck: string, values: seq<Value>, context: Value)
    requires v.ForAllValues? || v.ForAnyValue?
    requires !context.Undef? && !context.Null?
    ensures Ctx.ContextValue(ck, context).Ok?
    ensures EvaluateCondition(env, J.Obj([J.Prop(R.OperatorName(op, v), J.Obj([J.Prop(ck, J.Arr(values))]))]), context) ==
      Truthy(R.Apply(env.host, op, v, Ctx.ContextValue(ck, context).value, J.Arr(values)))
  {
    var key := R.OperatorName(op, v);
    R.TableIsDerived(op, v, key);
    QuantifiedNames(op, v);
    SingleOperatorBlock(env, key, J.Obj([J.Prop(ck, J.Arr(values))]), context);
    SingleContextKey(env, key, ck, values, context);
  }

  /** An operator that is in neither table throws once it is reached; an
      unquantified one over an empty value list is never reached. */
  lemma UnknownOperator(env: Env, key: string, ck: string, values: seq<Value>, context: Value)
    requires Resolve(env.custom, key).None?
    ensures values != [] || IsQuantified(key) ==>
      EvaluateCondition(env, J.Obj([J.Prop(key, J.Obj([J.Prop(ck, J.Arr(values))]))]), context).Err?
    ensures values == [] && !IsQuantified(key) ==>
      EvaluateCondition(env, J.Obj([J.Prop(key, J.Obj([J.Prop(ck, J.Arr(values))]))]), context) == Ok(false)
  {
    SingleOperatorBlock(env, key, J.Obj([J.Prop(ck, J.Arr(values))]), context);
    J.KeysOfOne(ck, J.Arr(values));
  }

  /** An operator with no context key throws. */
  lemma EmptyExpressionThrows(env: Env, key: string, context: Value)
    ensures EvaluateCondition(env, J.Obj([J.Prop(key, J.Obj([]))]), context).Err?
  {
    SingleOperatorBlock(env, key, J.Obj([]), context);
  }

  /** A single policy value counts as a one-element list. */
  lemma ScalarPolicyValue(env: Env, key: string, ck: string, value: Value, context: Value)
    requires !value.Arr?
    ensures ConditionHolds(env, key, J.Obj([J.Prop(ck, value)]), context) ==
      ConditionHolds(env, key, J.Obj([J.Prop(ck, J.Arr([value]))]), context)
  {
    J.KeysOfOne(ck, value);
    J.KeysOfOne(ck, J.Arr([value]));
  }

  /** A matched policy value that is falsy (false, 0, "", null) does not
      count: an unquantified operator whose policy values are all falsy
      never holds. */
  lemma FalsyValuesNeverCount(env: Env, key: string, ck: string, values: seq<Value>, context: Value)
    requires !IsQuantified(key) && forall j :: 0 <= j < |values| ==> !J.Truthy(values[j])
    ensures EvaluateCondition(env, J.Obj([J.Prop(key, J.Obj([J.Prop(ck, J.Arr(values))]))]), context) != Ok(true)
  {
    SingleOperatorBlock(env, key, J.Obj([J.Prop(ck, J.Arr(values))]), context);
    J.KeysOfOne(ck, J.Arr(values));
  }

  /** Context lookups never yield undefined (a missing key reads as the key
      itself), so `Null: true` never holds. */
  lemma NullTrueNeverHolds(env: Env, ck: string, context: Value)
    requires !context.Undef? && !context.Null?
    ensures EvaluateCondition(env, J.Obj([J.Prop(R.OperatorName(R.Null, R.Plain),
      J.Obj([J.Prop(ck, J.Arr([J.Bool(true)]))]))]), context) == Ok(false)
  {
    NullPlain(env, ck, context);
    C.BoolAndNullSemantics(Ctx.ContextValue(ck, context).value, J.Bool(true));
  }

  /** `Null: false` never holds either: the operator accepts every context
      value, but the matched policy value false is falsy. */
  lemma NullFalseNeverHolds(env: Env, ck: string, context: Value)
    requires !context.Undef? && !context.Null?
    ensures Ctx.ContextValue(ck, context).Ok? && C.Null(Ctx.ContextValue(ck, context).value, J.Bool(false))
    ensures EvaluateCondition(env, J.Obj([J.Prop(R.OperatorName(R.Null, R.Plain),
      J.Obj([J.Prop(ck, J.Arr([J.Bool(false)]))]))]), context) != Ok(true)
  {
    C.BoolAndNullSemantics(Ctx.ContextValue(ck, context).value, J.Bool(false));
    NullIsUnquantified();
    FalsyValuesNeverCount(env, R.OperatorName(R.Null, R.Plain), ck, [J.Bool(false)], context);
  }

  lemma NullIsUnquantified()
    ensures !IsQuantified(R.OperatorName(R.Null, R.Plain))
  {
    assert R.OperatorName(R.Null, R.Plain) == "Null";
  }

  lemma NullCall(host: C.Host, c: Value, b: bool)
    ensures Truthy(Call(host, BuiltinOp(R.Null, R.Plain), c, J.Bool(b))) == Ok(C.Null(c, J.Bool(b)))
  {
  }

  lemma NullPlain(env: Env, ck: string, context: Value)
    requires !context.Undef? && !context.Null?
    ensures Ctx.ContextValue(ck, context).Ok?
    ensures EvaluateCondition(env, J.Obj([J.Prop(R.OperatorName(R.Null, R.Plain),
      J.Obj([J.Prop(ck, J.Arr([J.Bool(true)]))]))]), context) ==
      Ok(C.Null(Ctx.ContextValue(ck, context).value, J.Bool(true)))
  {
    var key := R.OperatorName(R.Null, R.Plain);
    BuiltinsWin(env.custom, R.Null, R.Plain);
    NullIsUnquantified();
    OneOperatorCondition(env, key, ck, [J.Bool(true)], context);
    var c := Ctx.ContextValue(ck, context).value;
    NullCall(env.host, c, true);
    assert [J.Bool(true)][0] == J.Bool(true);
  }

  /** A caller's condition can never replace a built-in one. */
  lemma BuiltinsWin(custom: map<string, Custom>, op: R.BaseOp, v: R.Variant)
    ensures Resolve(custom, R.OperatorName(op, v)) == Some(BuiltinOp(op, v))
  {
    R.TableIsDerived(op, v, R.OperatorName(op, v));
  }

  // ---------------------------------------------------------------------
  // The evaluator object (pbac.js:19-39, 50-65).

  /** JSON-schema validation, which this model does not look inside: whether
      the schema itself is valid, and which policies it accepts. */
  datatype Validator = Validator(schemaValid: bool, policyValid: Value -> bool)

  /** `isBoolean(options[k]) ? options[k] : true`, where options that are
      not a plain object count as `{}`. */
  function BoolOption(options: Value, k: string): (b: bool)
    ensures !J.SafeGet(options, k).Bool? ==> b
  {
    var v := J.SafeGet(options, k);
    if v.Bool? then v.b else true
  }

  class PBAC {
    var policies: seq<Value>
    const validateSchema: bool
    const validatePolicies: bool
    const env: Env
    const validator: Validator

    /** An evaluator that validates policies holds only valid ones. */
    ghost predicate Valid()
      reads this
    {
      validatePolicies ==> forall i :: 0 <= i < |policies| ==> validator.policyValid(policies[i])
    }

    constructor Init(validateSchema: bool, validatePolicies: bool, env: Env, validator: Validator)
      ensures this.validateSchema == validateSchema && this.validatePolicies == validatePolicies
      ensures this.env == env && this.validator == validator
      ensures policies == [] && Valid()
    {
      this.validateSchema := validateSchema;
      this.validatePolicies := validatePolicies;
      this.env := env;
      this.validator := validator;
      policies := [];
    }

    /** `validate(policies)`: the first policy the schema rejects aborts. */
    method Validate(ps: seq<Value>) returns (r: Result<()>)
      ensures r.Ok? <==> forall i :: 0 <= i < |ps| ==> validator.policyValid(ps[i])
    {
      var i := 0;
      while i < |ps|
        invariant 0 <= i <= |ps|
        invariant forall j :: 0 <= j < i ==> validator.policyValid(ps[j])
      {
        if !validator.policyValid(ps[i]) {
          return Err("policy validation failed");
        }
        i := i + 1;
      }
      return Ok(());
    }

    /** `add(policies)`: one policy or a list of them; with validation on,
        nothing is added unless every one of them is valid. */
    method Add(p: Value) returns (r: Result<()>)
      requires Valid()
      modifies this
      ensures Valid()
      ensures r.Err? <==>
        validatePolicies && exists i :: 0 <= i < |J.Wrap(p)| && !validator.policyValid(J.Wrap(p)[i])
      ensures r.Err? ==> policies == old(policies)
      ensures r.Ok? ==> policies == old(policies) + J.Wrap(p)
    {
      var ps := J.Wrap(p);
      if validatePolicies {
        r := Validate(ps);
        if r.Err? {
          return;
        }
      }
      policies := policies + ps;
      r := Ok(());
    }

    /** `evaluate(options)` over the policies held. */
    function Evaluate(options: Value): (r: Result<bool>)
      reads this
      ensures r == Ok(true) <==>
        RequestOf(options).Ok? &&
        NoneApplies(env, Statements(policies), "Deny", RequestOf(options).value) &&
        FirstApplies(env, Statements(policies), "Allow", RequestOf(options).value)
      ensures policies == [] && !options.Undef? && !options.Null? ==> r == Ok(false)
    {
      DecisionMeaning(env, policies, options);
      DefaultDeny(env, policies, options);
      Decide(env, policies, options)
    }
  }

  /** `new PBAC(policies, options)`: the options are read, the schema is
      checked when `validateSchema` is on, and the policies are added.
      `custom` holds the functions of `options.conditions`. */
  method Create(policies: Value, options: Value, custom: map<string, Custom>, host: C.Host, validator: Validator)
    returns (r: Result<PBAC>)
    ensures r.Ok? <==>
      (!BoolOption(options, "validateSchema") || validator.schemaValid) &&
      (!BoolOption(options, "validatePolicies") ||
       forall i :: 0 <= i < |J.Wrap(policies)| ==> validator.policyValid(J.Wrap(policies)[i]))
    ensures r.Ok? ==> fresh(r.value) && r.value.Valid() && r.value.policies == J.Wrap(policies)
    ensures r.Ok? ==> r.value.env == Env(host, custom)
  {
    var pbac := new PBAC.Init(BoolOption(options, "validateSchema"), BoolOption(options, "validatePolicies"),
                              Env(host, custom), validator);
    if pbac.validateSchema && !validator.schemaValid {
      return Err("schema validation failed");
    }
    var added := pbac.Add(policies);
    if added.Err? {
      return Err(added.error);
    }
    return Ok(pbac);
  }
}
