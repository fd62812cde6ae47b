/** Request context: `getContextValue` / `getVariableValue` (pbac.js:115-126,
    index.js:67-77) and the `${namespace:name}` interpolation of resource
    patterns (pbac.js:110-114, index.js:62-66). */
module Context {
  import opened Results
  import J = JsValue
  import Pattern

  type Value = J.Value

  // ---------------------------------------------------------------------
  // `key.split(':')`: only the first two parts are ever read.

  /** The text before the first colon of `s` (all of `s` when it has none). */
  function Before(s: string): (r: string)
    ensures ':' !in r
    ensures |r| <= |s| && s[..|r|] == r
    ensures |r| < |s| ==> s[|r|] == ':'
    ensures ':' !in s ==> r == s
  {
    if s == [] || s[0] == ':' then [] else [s[0]] + Before(s[1..])
  }

  /** `parts[0]`. */
  function Namespace(key: string): string {
    Before(key)
  }

  /** `parts[1]`: the text between the first and the second colon, and for a
      key without a colon the property name that `undefined` becomes. */
  function Attribute(key: string): string {
    var ns := Before(key);
    if |ns| == |key| then "undefined" else Before(key[|ns| + 1..])
  }

  /** A colon-free prefix is what `Before` stops at. */
  lemma {:induction false} BeforeColon(ns: string, rest: string)
    requires ':' !in ns
    ensures Before(ns + [':'] + rest) == ns
  {
    if ns != [] {
      assert (ns + [':'] + rest)[1..] == ns[1..] + [':'] + rest;
      BeforeColon(ns[1..], rest);
    }
  }

  /** `"ns:attr"` and `"ns:attr:more"` split into `ns` and `attr`; a key
      without a colon is the namespace itself and reads the attribute
      "undefined". */
  lemma KeySplit(ns: string, attr: string, more: string)
    requires ':' !in ns && ':' !in attr
    ensures Namespace(ns + ":" + attr) == ns && Attribute(ns + ":" + attr) == attr
    ensures Namespace(ns + ":" + attr + ":" + more) == ns
    ensures Attribute(ns + ":" + attr + ":" + more) == attr
    ensures Namespace(ns) == ns && Attribute(ns) == "undefined"
  {
    BeforeColon(ns, attr);
    assert (ns + ":" + attr)[|ns| + 1..] == attr;
    BeforeColon(ns, attr + ":" + more);
    assert ns + ":" + attr + ":" + more == ns + [':'] + (attr + ":" + more);
    assert (ns + ":" + attr + ":" + more)[|ns| + 1..] == attr + [':'] + more;
    BeforeColon(attr, more);
  }

  /** `context[parts[0]][parts[1]]` when `context[parts[0]]` is a plain
      object and that property is defined, else the key itself. Reading
      `context[parts[0]]` throws when the context is undefined or null. */
  function ContextValue(key: string, context: Value): (r: Result<Value>)
    ensures r.Err? <==> context.Undef? || context.Null?
    ensures r.Ok? ==> !r.value.Undef?
  {
    var scope :- J.Get(context, Namespace(key));
    if scope.Obj? && !J.Lookup(scope.props, Attribute(key)).Undef? then
      Ok(J.Lookup(scope.props, Attribute(key)))
    else
      Ok(J.Str(key))
  }

  /** The value stored under `ns` / `attr` is what `"ns:attr"` reads; a
      missing namespace, a namespace that is not a plain object or a missing
      attribute leaves the key itself. */
  lemma ContextValueMeaning(ns: string, attr: string, context: seq<J.Prop>)
    requires ':' !in ns && ':' !in attr
    ensures var scope := J.Lookup(context, ns);
      ContextValue(ns + ":" + attr, J.Obj(context)) ==
        if scope.Obj? && !J.Lookup(scope.props, attr).Undef? then Ok(J.Lookup(scope.props, attr))
        else Ok(J.Str(ns + ":" + attr))
  {
    KeySplit(ns, attr, "");
  }

  /** A context that is an array reads its element under the decimal index
      as the namespace, and then that element's attribute; a string context
      reads a one-character string, never a plain object, so the key
      itself. */
  lemma IndexedContextValue(i: nat, attr: string, context: Value)
    requires ':' !in attr
    ensures context.Arr? && i < |context.elems| ==>
      var scope := context.elems[i];
      ContextValue(J.NatText(i) + ":" + attr, context) ==
        if scope.Obj? && !J.Lookup(scope.props, attr).Undef? then Ok(J.Lookup(scope.props, attr))
        else Ok(J.Str(J.NatText(i) + ":" + attr))
    ensures context.Str? ==>
      ContextValue(J.NatText(i) + ":" + attr, context) == Ok(J.Str(J.NatText(i) + ":" + attr))
  {
    J.DigitsOnly(i);
    assert ':' !in J.NatText(i);
    KeySplit(J.NatText(i), attr, "");
    J.IndexRead(context, i);
    if context.Arr? && i < |context.elems| {
      ScopeRead(J.NatText(i) + ":" + attr, context, context.elems[i]);
    }
    if context.Str? {
      IndexedStringValue(i, attr, context);
    }
  }

  lemma IndexedStringValue(i: nat, attr: string, context: Value)
    requires ':' !in attr && ':' !in J.NatText(i) && context.Str?
    requires Namespace(J.NatText(i) + ":" + attr) == J.NatText(i)
    requires i < |context.s| ==> J.Get(context, J.NatText(i)) == Ok(J.Str([context.s[i]]))
    ensures ContextValue(J.NatText(i) + ":" + attr, context) == Ok(J.Str(J.NatText(i) + ":" + attr))
  {
    var key := J.NatText(i) + ":" + attr;
    ScopeRead(key, context, J.Get(context, J.NatText(i)).value);
  }

  /** The context value once the namespace has been read. */
  lemma ScopeRead(key: string, context: Value, scope: Value)
    requires J.Get(context, Namespace(key)) == Ok(scope)
    ensures ContextValue(key, context) ==
      if scope.Obj? && !J.Lookup(scope.props, Attribute(key)).Undef? then Ok(J.Lookup(scope.props, Attribute(key)))
      else Ok(J.Str(key))
  {
  }

  // ---------------------------------------------------------------------
  // `value.replace(/\${(.+?)}/g, ...)`.

  /** The first `}` at or after `k`, provided no line terminator comes
      before it: where the lazy `(.+?)` stops. */
  function CloseFrom(s: string, k: nat): (r: Option<nat>)
    ensures r.Some? ==> k <= r.value < |s| && s[r.value] == '}'
    ensures r.Some? ==> forall i :: k <= i < r.value ==> s[i] != '}' && !Pattern.IsLineTerminator(s[i])
    ensures r.None? ==> forall j :: k <= j < |s| && s[j] == '}' ==>
      exists i :: k <= i < j && Pattern.IsLineTerminator(s[i])
    decreases |s| - k
  {
    if k >= |s| then None
    else if s[k] == '}' then Some(k)
    else if Pattern.IsLineTerminator(s[k]) then None
    else CloseFrom(s, k + 1)
  }

  /** The end (the index of the closing `}`) of a placeholder that starts
      at the beginning of `s`: `$`, `{`, at least one character that is not a
      line terminator, then the first `}`. */
  function PlaceholderEnd(s: string): (r: Option<nat>)
    ensures r.Some? ==> 3 <= r.value < |s| && s[..2] == "${" && s[r.value] == '}'
    ensures r.Some? ==> forall i :: 2 <= i < r.value ==> !Pattern.IsLineTerminator(s[i])
    ensures r.Some? ==> forall i :: 3 <= i < r.value ==> s[i] != '}'
    ensures |s| < 2 || s[0] != '$' || s[1] != '{' ==> r.None?
  {
    if |s| >= 4 && s[0] == '$' && s[1] == '{' && !Pattern.IsLineTerminator(s[2]) then
      CloseFrom(s, 3)
    else
      None
  }

  /** Every placeholder replaced, left to right, by the text of its context
      value; the first context read that throws aborts the replacement. */
  function Interpolate(s: string, context: Value): (r: Result<string>)
    ensures r.Err? ==> context.Undef? || context.Null?
    decreases |s|
  {
    if s == [] then Ok("")
    else match PlaceholderEnd(s)
      case Some(k) => Splice(ContextValue(s[2..k], context), Interpolate(s[k + 1..], context))
      case None =>
        match Interpolate(s[1..], context)
        case Err(e) => Err(e)
        case Ok(rest) => Ok([s[0]] + rest)
  }

  /** The text of a placeholder's value followed by the replaced rest; the
      value is read first, so a throw there wins. */
  function Splice(value: Result<Value>, rest: Result<string>): (r: Result<string>)
    ensures r.Err? <==> value.Err? || rest.Err?
  {
    match value
    case Err(e) => Err(e)
    case Ok(v) =>
      match rest
      case Err(e) => Err(e)
      case Ok(t) => Ok(J.JsText(v) + t)
  }

  /** A first character that is not `$` is copied as it is. */
  lemma PlainStep(c: char, rest: string, context: Value)
    requires c != '$'
    ensures Interpolate(rest, context).Ok? ==>
      Interpolate([c] + rest, context) == Ok([c] + Interpolate(rest, context).value)
    ensures Interpolate(rest, context).Err? ==> Interpolate([c] + rest, context).Err?
  {
    var s := [c] + rest;
    assert s[0] == c && s[1..] == rest;
    assert PlaceholderEnd(s).None?;
  }

  /** A text without `$` is left alone, whatever the context. */
  lemma {:induction false} NoPlaceholder(s: string, context: Value)
    requires '$' !in s
    ensures Interpolate(s, context) == Ok(s)
  {
    if s != [] {
      assert s[0] in s;
      assert forall c :: c in s[1..] ==> c in s;
      NoPlaceholder(s[1..], context);
      assert [s[0]] + s[1..] == s;
      PlainStep(s[0], s[1..], context);
    }
  }

  /** The closing brace of `${key}` is the one right after the key. */
  lemma {:induction false} CloseAfterKey(s: string, key: string, k: nat)
    requires 2 <= k <= |key| + 2 <= |s| - 1
    requires s[2..|key| + 2] == key && s[|key| + 2] == '}'
    requires '}' !in key && forall c :: c in key ==> !Pattern.IsLineTerminator(c)
    ensures CloseFrom(s, k) == Some(|key| + 2)
    decreases |key| + 2 - k
  {
    if k < |key| + 2 {
      assert s[k] == key[k - 2];
      CloseAfterKey(s, key, k + 1);
    }
  }

  /** A placeholder at the front is replaced by the text of its context
      value. */
  lemma PlaceholderStep(s: string, k: nat, context: Value)
    requires PlaceholderEnd(s) == Some(k)
    ensures ContextValue(s[2..k], context).Err? ==> Interpolate(s, context).Err?
    ensures ContextValue(s[2..k], context).Ok? && Interpolate(s[k + 1..], context).Ok? ==>
      Interpolate(s, context) ==
      Ok(J.JsText(ContextValue(s[2..k], context).value) + Interpolate(s[k + 1..], context).value)
  {
    PlaceholderThrows(s, k, context);
    PlaceholderReplaced(s, k, context);
  }

  lemma PlaceholderThrows(s: string, k: nat, context: Value)
    requires PlaceholderEnd(s) == Some(k)
    ensures ContextValue(s[2..k], context).Err? ==> Interpolate(s, context).Err?
  {
    assert s != [];
  }

  lemma PlaceholderReplaced(s: string, k: nat, context: Value)
    requires PlaceholderEnd(s) == Some(k)
    ensures ContextValue(s[2..k], context).Ok? && Interpolate(s[k + 1..], context).Ok? ==>
      Interpolate(s, context) ==
      Ok(J.JsText(ContextValue(s[2..k], context).value) + Interpolate(s[k + 1..], context).value)
  {
    var value, rest := ContextValue(s[2..k], context), Interpolate(s[k + 1..], context);
    if value.Ok? && rest.Ok? {
      ReplacedBy(s, k, context, value.value, rest.value);
    }
  }

  lemma ReplacedBy(s: string, k: nat, context: Value, v: Value, rest: string)
    requires PlaceholderEnd(s) == Some(k)
    requires ContextValue(s[2..k], context) == Ok(v) && Interpolate(s[k + 1..], context) == Ok(rest)
    ensures Interpolate(s, context) == Ok(J.JsText(v) + rest)
  {
    assert s != [];
  }

  /** `${key}` at the front of `s` ends right after `key`. */
  lemma KeyPlaceholderEnd(s: string, key: string)
    requires key != [] && '}' !in key && forall c :: c in key ==> !Pattern.IsLineTerminator(c)
    requires |s| >= |key| + 3 && s[..2] == "${" && s[2..|key| + 2] == key && s[|key| + 2] == '}'
    ensures PlaceholderEnd(s) == Some(|key| + 2)
  {
    assert s[2] == key[0];
    assert key[0] in key;
    CloseAfterKey(s, key, 3);
  }

  /** One placeholder between two texts without `$` becomes the text of the
      context value of its key; everything else is kept. */
  lemma OnePlaceholder(pre: string, key: string, post: string, context: Value)
    requires '$' !in pre && '$' !in post
    requires key != [] && '}' !in key && forall c :: c in key ==> !Pattern.IsLineTerminator(c)
    ensures ContextValue(key, context).Ok? ==>
      Interpolate(pre + "${" + key + "}" + post, context) ==
      Ok(pre + J.JsText(ContextValue(key, context).value) + post)
    ensures ContextValue(key, context).Err? ==>
      Interpolate(pre + "${" + key + "}" + post, context).Err?
  {
    var s := "${" + key + "}" + post;
    assert pre + "${" + key + "}" + post == pre + s;
    TextBefore(pre, s, context);
    LeadingPlaceholder(key, post, context);
    if ContextValue(key, context).Ok? {
      Reassociate(pre, J.JsText(ContextValue(key, context).value), post);
    }
  }

  lemma Reassociate(a: string, b: string, c: string)
    ensures a + (b + c) == a + b + c
  {
  }

  /** A text without `$` in front of `s` is copied unchanged. */
  lemma {:induction false} TextBefore(pre: string, s: string, context: Value)
    requires '$' !in pre
    ensures Interpolate(s, context).Ok? ==>
      Interpolate(pre + s, context) == Ok(pre + Interpolate(s, context).value)
    ensures Interpolate(s, context).Err? ==> Interpolate(pre + s, context).Err?
  {
    if pre == [] {
      assert pre + s == s;
      if Interpolate(s, context).Ok? {
        assert pre + Interpolate(s, context).value == Interpolate(s, context).value;
      }
    } else {
      var c, rest := pre[0], pre[1..];
      assert pre == [c] + rest;
      assert pre + s == [c] + (rest + s);
      assert c in pre;
      assert '$' !in rest by {
        assert forall x :: x in rest ==> x in pre;
      }
      TextBefore(rest, s, context);
      PlainStep(c, rest + s, context);
      if Interpolate(s, context).Ok? {
        var t := Interpolate(s, context).value;
        assert [c] + (rest + t) == pre + t;
      }
    }
  }

  /** A placeholder at the front of a text without any further `$`. */
  lemma LeadingPlaceholder(key: string, post: string, context: Value)
    requires '$' !in post
    requires key != [] && '}' !in key && forall c :: c in key ==> !Pattern.IsLineTerminator(c)
    ensures ContextValue(key, context).Ok? ==>
      Interpolate("${" + key + "}" + post, context) == Ok(J.JsText(ContextValue(key, context).value) + post)
    ensures ContextValue(key, context).Err? ==> Interpolate("${" + key + "}" + post, context).Err?
  {
    var s := "${" + key + "}" + post;
    Braced(key, post);
    KeyPlaceholderEnd(s, key);
    NoPlaceholder(post, context);
    PlaceholderStep(s, |key| + 2, context);
  }

  lemma Braced(key: string, post: string)
    ensures var s := "${" + key + "}" + post;
      |s| >= |key| + 3 && s[..2] == "${" && s[2..|key| + 2] == key && s[|key| + 2] == '}' &&
      s[|key| + 3..] == post
  {
    var s := "${" + key + "}" + post;
    assert s[..2] == "${" && s[2..|key| + 2] == key && s[|key| + 2] == '}';
    assert s[|key| + 3..] == post;
  }
}
