/** The built-in condition operators of conditions.js:16-149, each a total
    predicate `Op(a, b)` of the request value `a` and the policy value `b`
    that is false on operands of the wrong type. */
module Conditions {
  import opened Results
  import J = JsValue
  import Pattern

  type Value = J.Value

  /** What the operators borrow from the JavaScript host, given as
      parameters: `new Date(v)` (its time in milliseconds, or None for an
      'Invalid Date'), the ip-range-check package, `String.prototype.toLowerCase`
      and Node's `Buffer` (None when `a` is not a Buffer, else whether it
      equals the base64 decoding of `b`). */
  datatype Host = Host(
    parseDate: Value -> Option<int>,
    ipRangeCheck: (Value, Value) -> bool,
    toLowerCase: string -> string,
    bufferEquals: (Value, string) -> Option<bool>)

  // Numeric family (conditions.js:16-39): the ...Not... and ...Equals forms
  // other than NumericEquals are negations of their counterpart.

  predicate NumericEquals(a: Value, b: Value) {
    if !a.Num? || !b.Num? then false else a.n == b.n
  }

  predicate NumericNotEquals(a: Value, b: Value) {
    if !a.Num? || !b.Num? then false else !NumericEquals(a, b)
  }

  predicate NumericLessThan(a: Value, b: Value) {
    if !a.Num? || !b.Num? then false else a.n < b.n
  }

  predicate NumericGreaterThanEquals(a: Value, b: Value) {
    if !a.Num? || !b.Num? then false else !NumericLessThan(a, b)
  }

  predicate NumericGreaterThan(a: Value, b: Value) {
    if !a.Num? || !b.Num? then false else a.n > b.n
  }

  predicate NumericLessThanEquals(a: Value, b: Value) {
    if !a.Num? || !b.Num? then false else !NumericGreaterThan(a, b)
  }

  // Date family (conditions.js:40-69): both operands go through `new Date`.

  predicate Parses(host: Host, a: Value, b: Value) {
    host.parseDate(a).Some? && host.parseDate(b).Some?
  }

  predicate DateEquals(host: Host, a: Value, b: Value) {
    if !Parses(host, a, b) then false
    else host.parseDate(a).value >= host.parseDate(b).value &&
         host.parseDate(a).value <= host.parseDate(b).value
  }

  predicate DateNotEquals(host: Host, a: Value, b: Value) {
    if !Parses(host, a, b) then false else !DateEquals(host, a, b)
  }

  predicate DateLessThan(host: Host, a: Value, b: Value) {
    if !Parses(host, a, b) then false
    else host.parseDate(a).value < host.parseDate(b).value
  }

  predicate DateGreaterThanEquals(host: Host, a: Value, b: Value) {
    if !Parses(host, a, b) then false else !DateLessThan(host, a, b)
  }

  predicate DateGreaterThan(host: Host, a: Value, b: Value) {
    if !Parses(host, a, b) then false
    else host.parseDate(a).value > host.parseDate(b).value
  }

  predicate DateLessThanEquals(host: Host, a: Value, b: Value) {
    if !Parses(host, a, b) then false else !DateGreaterThan(host, a, b)
  }

  // Binary family (conditions.js:70-89), Node branch: false unless `b` is
  // a string and `a` a Buffer.

  predicate BinaryEquals(host: Host, a: Value, b: Value) {
    if !b.Str? then false
    else match host.bufferEquals(a, b.s)
      case None => false
      case Some(eq) => eq
  }

  predicate BinaryNotEquals(host: Host, a: Value, b: Value) {
    if !b.Str? then false
    else match host.bufferEquals(a, b.s)
      case None => false
      case Some(eq) => !eq
  }

  // ARN family (conditions.js:90-107): a star may not cross a colon;
  // ArnEquals is ArnLike under another name.

  predicate ArnLike(a: Value, b: Value) {
    if !b.Str? then false
    else Pattern.Matches(Pattern.Compile(b.s, true), J.JsText(a))
  }

  predicate ArnNotLike(a: Value, b: Value) {
    if !b.Str? then false else !ArnLike(a, b)
  }

  predicate ArnEquals(a: Value, b: Value) {
    ArnLike(a, b)
  }

  /** ArnNotLike or StringNotLike called as a method of the operator table
      itself (`conditions.StringNotLike(a, b)`), so that `this` is the table
      and not the engine. Past its string test on `b` the function reads
      `this.conditions.ArnLike` (or `.StringLike`); the table has no
      `conditions` property (a caller's entry of that name would be a
      function, which has no `ArnLike` either), so the read throws. */
  function NotLikeOnTable(b: Value): (r: Result<bool>)
    ensures r.Err? <==> b.Str?
    ensures r.Ok? ==> !r.value
  {
    if !b.Str? then Ok(false)
    else Err("TypeError: Cannot read property of undefined")
  }

  /** ArnNotEquals as written (conditions.js:105-107): it calls
      `this.conditions.ArnNotLike(a, b)`, a method call on the table, so it
      throws on every string pattern. Whenever it returns, it returns what
      ArnNotLike would. */
  function ArnNotEquals(a: Value, b: Value): (r: Result<bool>)
    ensures r.Err? <==> b.Str?
    ensures r.Ok? ==> r.value == ArnNotLike(a, b)
  {
    NotLikeOnTable(b)
  }

  /** ArnNotEquals as evidently intended: ArnNotLike under another name, as
      ArnEquals is ArnLike. It never throws and, on a string pattern, is the
      negation of ArnEquals. */
  function ArnNotEqualsIntended(a: Value, b: Value): (r: bool)
    ensures b.Str? ==> (r <==> !ArnEquals(a, b))
    ensures !b.Str? ==> !r
  {
    ArnNotLike(a, b)
  }

  /** `Null(a, true)` asks for `a` to be undefined, `Null(a, false)` for it
      to be defined (conditions.js:108-111). */
  predicate Null(a: Value, b: Value) {
    if !b.Bool? then false
    else if b.b then a.Undef? else !a.Undef?
  }

  /** conditions.js:112-117: a falsy range becomes the empty string. */
  predicate IpAddress(host: Host, a: Value, b: Value) {
    host.ipRangeCheck(a, if J.Truthy(b) then b else J.Str(""))
  }

  predicate NotIpAddress(host: Host, a: Value, b: Value) {
    !IpAddress(host, a, b)
  }

  // String family (conditions.js:118-145).

  predicate StringEquals(a: Value, b: Value) {
    if !a.Str? || !b.Str? then false else a.s == b.s
  }

  predicate StringNotEquals(a: Value, b: Value) {
    if !a.Str? || !b.Str? then false else a.s != b.s
  }

  predicate StringEqualsIgnoreCase(host: Host, a: Value, b: Value) {
    if !a.Str? || !b.Str? then false
    else host.toLowerCase(a.s) == host.toLowerCase(b.s)
  }

  predicate StringNotEqualsIgnoreCase(host: Host, a: Value, b: Value) {
    if !a.Str? || !b.Str? then false
    else host.toLowerCase(a.s) != host.toLowerCase(b.s)
  }

  /** The subject is whatever `RegExp.test` makes of `a`: undefined is
      tested as the text "undefined". */
  predicate StringLike(a: Value, b: Value) {
    if !b.Str? then false
    else Pattern.Matches(Pattern.Compile(b.s, false), J.JsText(a))
  }

  predicate StringNotLike(a: Value, b: Value) {
    if !b.Str? then false else !StringLike(a, b)
  }

  /** conditions.js:146-149: booleans only; the strings "true" and "false"
      are not booleans. */
  predicate Bool(a: Value, b: Value) {
    if !a.Bool? || !b.Bool? then false else a.b == b.b
  }

  // ---------------------------------------------------------------------
  // What the operators promise.

  /** Numeric operators hold only of two numbers; on numbers the three
      negated forms are the negations of Equals, LessThan and GreaterThan. */
  lemma NumericSemantics(a: Value, b: Value)
    ensures !(a.Num? && b.Num?) ==>
      !NumericEquals(a, b) && !NumericNotEquals(a, b) && !NumericLessThan(a, b) &&
      !NumericGreaterThanEquals(a, b) && !NumericGreaterThan(a, b) && !NumericLessThanEquals(a, b)
    ensures a.Num? && b.Num? ==>
      (NumericEquals(a, b) <==> a.n == b.n) &&
      (NumericLessThan(a, b) <==> a.n < b.n) &&
      (NumericGreaterThan(a, b) <==> a.n > b.n) &&
      NumericNotEquals(a, b) == !NumericEquals(a, b) &&
      NumericGreaterThanEquals(a, b) == !NumericLessThan(a, b) &&
      NumericLessThanEquals(a, b) == !NumericGreaterThan(a, b)
  {
  }

  /** Date operators are false when either side fails to parse, and on
      parsed times they are the numeric operators on milliseconds. */
  lemma DateSemantics(host: Host, a: Value, b: Value)
    ensures !Parses(host, a, b) ==>
      !DateEquals(host, a, b) && !DateNotEquals(host, a, b) && !DateLessThan(host, a, b) &&
      !DateGreaterThanEquals(host, a, b) && !DateGreaterThan(host, a, b) &&
      !DateLessThanEquals(host, a, b)
    ensures Parses(host, a, b) ==>
      var x, y := J.Num(host.parseDate(a).value), J.Num(host.parseDate(b).value);
      DateEquals(host, a, b) == NumericEquals(x, y) &&
      DateNotEquals(host, a, b) == NumericNotEquals(x, y) &&
      DateLessThan(host, a, b) == NumericLessThan(x, y) &&
      DateGreaterThanEquals(host, a, b) == NumericGreaterThanEquals(x, y) &&
      DateGreaterThan(host, a, b) == NumericGreaterThan(x, y) &&
      DateLessThanEquals(host, a, b) == NumericLessThanEquals(x, y)
  {
  }

  /** The string comparisons hold only of two strings, and each Not form is
      the negation of its positive form there. */
  lemma StringEqualitySemantics(host: Host, a: Value, b: Value)
    ensures !(a.Str? && b.Str?) ==>
      !StringEquals(a, b) && !StringNotEquals(a, b) &&
      !StringEqualsIgnoreCase(host, a, b) && !StringNotEqualsIgnoreCase(host, a, b)
    ensures a.Str? && b.Str? ==>
      (StringEquals(a, b) <==> a == b) &&
      StringNotEquals(a, b) == !StringEquals(a, b) &&
      StringNotEqualsIgnoreCase(host, a, b) == !StringEqualsIgnoreCase(host, a, b)
  {
  }

  /** Bool is strict boolean equality; Null(a, true) asks for undefined,
      Null(a, false) for anything else, JavaScript null included. */
  lemma BoolAndNullSemantics(a: Value, b: Value)
    ensures Bool(a, b) <==> a.Bool? && a == b
    ensures !b.Bool? ==> !Null(a, b)
    ensures Null(a, J.Bool(true)) <==> a == J.Undef
    ensures Null(a, J.Bool(false)) <==> a != J.Undef
    ensures Null(J.Null, J.Bool(false)) && !Null(J.Null, J.Bool(true))
  {
  }

  /** NotIpAddress negates IpAddress, and a falsy range is read as "". */
  lemma IpAddressSemantics(host: Host, a: Value, b: Value)
    ensures NotIpAddress(host, a, b) == !IpAddress(host, a, b)
    ensures !J.Truthy(b) ==> IpAddress(host, a, b) == host.ipRangeCheck(a, J.Str(""))
  {
  }

  /** Binary operators need a Buffer and a string; between those they are
      negations of each other. */
  lemma BinarySemantics(host: Host, a: Value, b: Value)
    ensures !b.Str? || host.bufferEquals(a, b.s).None? ==>
      !BinaryEquals(host, a, b) && !BinaryNotEquals(host, a, b)
    ensures b.Str? && host.bufferEquals(a, b.s).Some? ==>
      BinaryNotEquals(host, a, b) == !BinaryEquals(host, a, b)
  {
  }

  /** StringLike holds exactly when the text of `a` matches all of the
      pattern `b`, `*` standing for any run and `?` for one character. */
  lemma StringLikeMeaning(a: Value, b: Value)
    ensures StringLike(a, b) <==> b.Str? && Pattern.Glob(b.s, J.JsText(a), false)
  {
    if b.Str? {
      Pattern.CompiledMeansGlob(b.s, J.JsText(a), false);
    }
  }

  /** ArnLike is the same with stars that never cross a colon. */
  lemma ArnLikeMeaning(a: Value, b: Value)
    ensures ArnLike(a, b) <==> b.Str? && Pattern.Glob(b.s, J.JsText(a), true)
  {
    if b.Str? {
      Pattern.CompiledMeansGlob(b.s, J.JsText(a), true);
    }
  }

  /** The Not forms of the pattern operators are false on a non-string
      pattern and the negation of the Like form otherwise; ArnEquals is
      ArnLike. ArnNotEquals, as written, is false on a non-string pattern
      and throws on every string one, so it never holds. */
  lemma NotLikeSemantics(a: Value, b: Value)
    ensures !b.Str? ==> !StringLike(a, b) && !StringNotLike(a, b) && !ArnLike(a, b) && !ArnNotLike(a, b)
    ensures b.Str? ==> StringNotLike(a, b) == !StringLike(a, b) && ArnNotLike(a, b) == !ArnLike(a, b)
    ensures ArnEquals(a, b) == ArnLike(a, b)
    ensures !b.Str? ==> ArnNotEquals(a, b) == Ok(false)
    ensures b.Str? ==> ArnNotEquals(a, b).Err?
    ensures ArnNotEquals(a, b) != Ok(true)
  {
  }

  /** The as-written ArnNotEquals and the intended one part exactly on
      string patterns: there the first throws, and the second is the
      negation of ArnEquals: for a pattern without wildcards, false of the
      pattern's own text and true of any other. */
  lemma ArnNotEqualsDiscrepancy(b: string)
    requires Pattern.IsLiteral(b)
    ensures ArnNotEquals(J.Str(b), J.Str(b)).Err? && ArnNotEquals(J.Str(b + ":"), J.Str(b)).Err?
    ensures !ArnNotEqualsIntended(J.Str(b), J.Str(b))
    ensures ArnNotEqualsIntended(J.Str(b + ":"), J.Str(b))
  {
    LiteralPatternIsEquality(J.Str(b), b);
    LiteralPatternIsEquality(J.Str(b + ":"), b);
    assert b + ":" != b by { assert |b + ":"| == |b| + 1; }
  }

  /** A pattern without `*` or `?` matches its own text and nothing else. */
  lemma LiteralPatternIsEquality(a: Value, p: string)
    requires Pattern.IsLiteral(p)
    ensures StringLike(a, J.Str(p)) <==> J.JsText(a) == p
    ensures ArnLike(a, J.Str(p)) <==> J.JsText(a) == p
  {
    StringLikeMeaning(a, J.Str(p));
    ArnLikeMeaning(a, J.Str(p));
    Pattern.LiteralGlob(p, J.JsText(a), false);
    Pattern.LiteralGlob(p, J.JsText(a), true);
  }

  /** `StringLike(a, "*")` holds of every text without a line terminator,
      undefined (the text "undefined") and the empty string among them;
      `ArnLike(a, "*")` holds exactly when the text has no colon. */
  lemma LoneStar(a: Value)
    ensures StringLike(a, J.Str("*")) <==> Pattern.NoLineTerminators(J.JsText(a))
    ensures ArnLike(a, J.Str("*")) <==> Pattern.NoColons(J.JsText(a))
    ensures StringLike(J.Undef, J.Str("*")) && StringLike(J.Str(""), J.Str("*"))
  {
    PlainStar(a);
    ArnStar(a);
    PlainStar(J.Undef);
    UndefinedHasNoLineTerminator();
    PlainStar(J.Str(""));
  }

  lemma PlainStar(a: Value)
    ensures StringLike(a, J.Str("*")) <==> Pattern.NoLineTerminators(J.JsText(a))
  {
    StringLikeMeaning(a, J.Str("*"));
    Pattern.StarGlob(J.JsText(a), false);
  }

  lemma ArnStar(a: Value)
    ensures ArnLike(a, J.Str("*")) <==> Pattern.NoColons(J.JsText(a))
  {
    ArnLikeMeaning(a, J.Str("*"));
    Pattern.StarGlob(J.JsText(a), true);
  }

  lemma UndefinedHasNoLineTerminator()
    ensures Pattern.NoLineTerminators(J.JsText(J.Undef))
  {
    var t := J.JsText(J.Undef);
    assert t == "undefined";
    forall i | 0 <= i < |t| ensures !Pattern.IsLineTerminator(t[i]) {
      assert t[i] in "undefined";
    }
  }

  /** On a subject with no line terminator an ArnLike match is a StringLike
      match; on a subject with no colon the converse holds too. */
  lemma ArnLikeRefinesStringLike(a: Value, b: Value)
    ensures Pattern.NoLineTerminators(J.JsText(a)) && ArnLike(a, b) ==> StringLike(a, b)
    ensures Pattern.NoColons(J.JsText(a)) && StringLike(a, b) ==> ArnLike(a, b)
  {
    StringLikeMeaning(a, b);
    ArnLikeMeaning(a, b);
    if b.Str? {
      Pattern.ArnGlobIsPlainGlob(b.s, J.JsText(a));
    }
  }
}
