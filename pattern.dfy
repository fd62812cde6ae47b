/** The wildcard matcher behind StringLike and ArnLike (conditions.js:90-97
    and 134-141). The source builds a regular expression from the policy
    pattern: every character except `*` and `?` is escaped, `*` becomes
    `.*` (StringLike) or `[^:]*` (ArnLike), `?` becomes `.`, and the whole
    is anchored with `^...$`. Here the pattern is compiled to tokens and
    matched by recursion, and the result is proved equal to a declarative
    reading of the pattern. */
module Pattern {

  /** One element of a compiled pattern: a literal character, a star (which
      in ARN mode may not cross a colon), or a single-character wildcard. */
  datatype Token = Lit(c: char) | Star(noColon: bool) | One

  /** The characters the JavaScript `.` does not match. */
  predicate IsLineTerminator(c: char) {
    c == '\n' || c == '\r' || c == '\U{2028}' || c == '\U{2029}'
  }

  /** A character one step of a star may consume: `.` for StringLike,
      `[^:]` for ArnLike. */
  predicate StarChar(arn: bool, c: char) {
    if arn then c != ':' else !IsLineTerminator(c)
  }

  predicate AllStarChars(arn: bool, s: string) {
    forall i :: 0 <= i < |s| ==> StarChar(arn, s[i])
  }

  predicate NoLineTerminators(s: string) {
    forall i :: 0 <= i < |s| ==> !IsLineTerminator(s[i])
  }

  /** A pattern with no wildcard character. */
  predicate IsLiteral(p: string) {
    forall i :: 0 <= i < |p| ==> p[i] != '*' && p[i] != '?'
  }

  function TokenOf(c: char, arn: bool): Token {
    if c == '*' then Star(arn) else if c == '?' then One else Lit(c)
  }

  /** The pattern-to-regular-expression translation, one token per
      pattern character. */
  function Compile(p: string, arn: bool): (ts: seq<Token>)
    ensures |ts| == |p|
  {
    seq(|p|, i requires 0 <= i < |p| => TokenOf(p[i], arn))
  }

  /** The pattern a token sequence was compiled from. */
  function Render(ts: seq<Token>): string {
    if ts == [] then ""
    else
      (match ts[0]
       case Lit(c) => [c]
       case Star(_) => "*"
       case One => "?") + Render(ts[1..])
  }

  lemma CompileTail(p: string, arn: bool)
    requires p != []
    ensures Compile(p, arn)[0] == TokenOf(p[0], arn)
    ensures Compile(p, arn)[1..] == Compile(p[1..], arn)
  {
  }

  /** Compilation loses nothing: the pattern can be read back. */
  lemma {:induction false} RenderCompile(p: string, arn: bool)
    ensures Render(Compile(p, arn)) == p
  {
    if p != [] {
      CompileTail(p, arn);
      RenderCompile(p[1..], arn);
    }
  }

  /** Whole-string match of the compiled expression, as `RegExp.test` on an
      anchored pattern decides it. */
  function Matches(ts: seq<Token>, t: string): bool
    decreases |ts|, |t|
  {
    if ts == [] then t == []
    else match ts[0]
      case Lit(c) => t != [] && t[0] == c && Matches(ts[1..], t[1..])
      case One => t != [] && !IsLineTerminator(t[0]) && Matches(ts[1..], t[1..])
      case Star(nc) =>
        Matches(ts[1..], t) || (t != [] && StarChar(nc, t[0]) && Matches(ts, t[1..]))
  }

  /** The declarative meaning of a pattern: `*` stands for any run of star
      characters, `?` for one character that is not a line terminator, and
      every other character for itself. */
  ghost predicate Glob(p: string, t: string, arn: bool)
    decreases |p|
  {
    if p == [] then t == []
    else if p[0] == '*' then
      exists k :: 0 <= k <= |t| && AllStarChars(arn, t[..k]) && Glob(p[1..], t[k..], arn)
    else if p[0] == '?' then
      t != [] && !IsLineTerminator(t[0]) && Glob(p[1..], t[1..], arn)
    else
      t != [] && t[0] == p[0] && Glob(p[1..], t[1..], arn)
  }

  /** A leading star matches exactly when some prefix of star characters can
      be skipped and the rest of the pattern matches what follows. */
  lemma StarSplit(ts: seq<Token>, t: string, arn: bool)
    requires ts != [] && ts[0] == Star(arn)
    ensures Matches(ts, t) <==>
      exists k :: 0 <= k <= |t| && AllStarChars(arn, t[..k]) && Matches(ts[1..], t[k..])
  {
    if Matches(ts, t) {
      StarSkips(ts, t, arn);
    }
    if exists k :: 0 <= k <= |t| && AllStarChars(arn, t[..k]) && Matches(ts[1..], t[k..]) {
      var k :| 0 <= k <= |t| && AllStarChars(arn, t[..k]) && Matches(ts[1..], t[k..]);
      StarConsumes(ts, t, arn, k);
    }
  }

  lemma {:induction false} StarSkips(ts: seq<Token>, t: string, arn: bool)
    requires ts != [] && ts[0] == Star(arn) && Matches(ts, t)
    ensures exists k :: 0 <= k <= |t| && AllStarChars(arn, t[..k]) && Matches(ts[1..], t[k..])
    decreases |t|
  {
    if Matches(ts[1..], t) {
      assert t[..0] == [] && t[0..] == t;
    } else {
      StarSkips(ts, t[1..], arn);
      var k :| 0 <= k <= |t[1..]| && AllStarChars(arn, t[1..][..k]) && Matches(ts[1..], t[1..][k..]);
      assert t[..k + 1] == [t[0]] + t[1..][..k];
      assert t[k + 1..] == t[1..][k..];
    }
  }

  lemma {:induction false} StarConsumes(ts: seq<Token>, t: string, arn: bool, k: nat)
    requires ts != [] && ts[0] == Star(arn)
    requires k <= |t| && AllStarChars(arn, t[..k]) && Matches(ts[1..], t[k..])
    ensures Matches(ts, t)
    decreases k
  {
    if k == 0 {
      assert t[0..] == t;
    } else {
      assert StarChar(arn, t[..k][0]);
      assert t[1..][..k - 1] == t[1..k];
      assert AllStarChars(arn, t[1..][..k - 1]);
      assert t[1..][k - 1..] == t[k..];
      StarConsumes(ts, t[1..], arn, k - 1);
    }
  }

  /** The compiled matcher decides exactly the declarative meaning. */
  lemma {:induction false} CompiledMeansGlob(p: string, t: string, arn: bool)
    ensures Matches(Compile(p, arn), t) <==> Glob(p, t, arn)
    decreases |p|
  {
    if p != [] {
      CompileTail(p, arn);
      var ts := Compile(p, arn);
      if p[0] == '*' {
        StarSplit(ts, t, arn);
        forall k | 0 <= k <= |t|
          ensures Matches(ts[1..], t[k..]) <==> Glob(p[1..], t[k..], arn)
        {
          CompiledMeansGlob(p[1..], t[k..], arn);
        }
      } else if t != [] {
        CompiledMeansGlob(p[1..], t[1..], arn);
      }
    }
  }

  /** A pattern without wildcards matches only itself. */
  lemma {:induction false} LiteralGlob(p: string, t: string, arn: bool)
    requires IsLiteral(p)
    ensures Glob(p, t, arn) <==> t == p
    decreases |p|
  {
    if p != [] {
      assert IsLiteral(p[1..]);
      if t != [] {
        LiteralGlob(p[1..], t[1..], arn);
        if t[1..] == p[1..] && t[0] == p[0] {
          assert t == [t[0]] + t[1..];
          assert p == [p[0]] + p[1..];
        }
      }
    }
  }

  /** A lone star matches every text made of star characters, and nothing
      else. */
  lemma StarGlob(t: string, arn: bool)
    ensures Glob("*", t, arn) <==> AllStarChars(arn, t)
  {
    var p := "*";
    assert p[1..] == [];
    if AllStarChars(arn, t) {
      assert t[..|t|] == t && t[|t|..] == [];
    }
    if Glob(p, t, arn) {
      var k :| 0 <= k <= |t| && AllStarChars(arn, t[..k]) && Glob(p[1..], t[k..], arn);
      assert t[k..] == [] && t[..k] == t;
    }
  }

  predicate NoColons(s: string) {
    forall i :: 0 <= i < |s| ==> s[i] != ':'
  }

  /** On a text with no line terminator, an ARN match is a plain match. */
  lemma {:induction false} ArnToPlain(p: string, t: string)
    requires NoLineTerminators(t) && Glob(p, t, true)
    ensures Glob(p, t, false)
    decreases |p|
  {
    if p != [] {
      if p[0] == '*' {
        var k :| 0 <= k <= |t| && AllStarChars(true, t[..k]) && Glob(p[1..], t[k..], true);
        assert NoLineTerminators(t[k..]) by {
          forall i | 0 <= i < |t[k..]| ensures !IsLineTerminator(t[k..][i]) {
            assert t[k..][i] == t[k + i];
          }
        }
        ArnToPlain(p[1..], t[k..]);
        assert AllStarChars(false, t[..k]) by {
          forall i | 0 <= i < k ensures StarChar(false, t[..k][i]) {
            assert t[..k][i] == t[i];
          }
        }
      } else {
        assert t != [];
        assert NoLineTerminators(t[1..]) by {
          forall i | 0 <= i < |t[1..]| ensures !IsLineTerminator(t[1..][i]) {
            assert t[1..][i] == t[i + 1];
          }
        }
        ArnToPlain(p[1..], t[1..]);
      }
    }
  }

  /** On a text with no colon, a plain match is an ARN match. */
  lemma {:induction false} PlainToArn(p: string, t: string)
    requires NoColons(t) && Glob(p, t, false)
    ensures Glob(p, t, true)
    decreases |p|
  {
    if p != [] {
      if p[0] == '*' {
        var k :| 0 <= k <= |t| && AllStarChars(false, t[..k]) && Glob(p[1..], t[k..], false);
        assert NoColons(t[k..]) by {
          forall i | 0 <= i < |t[k..]| ensures t[k..][i] != ':' {
            assert t[k..][i] == t[k + i];
          }
        }
        PlainToArn(p[1..], t[k..]);
        assert AllStarChars(true, t[..k]) by {
          forall i | 0 <= i < k ensures StarChar(true, t[..k][i]) {
            assert t[..k][i] == t[i];
          }
        }
      } else {
        assert t != [];
        assert NoColons(t[1..]) by {
          forall i | 0 <= i < |t[1..]| ensures t[1..][i] != ':' {
            assert t[1..][i] == t[i + 1];
          }
        }
        PlainToArn(p[1..], t[1..]);
      }
    }
  }

  /** ARN mode is StringLike mode with colons kept out of stars: on a text
      with no line terminator, an ARN match is also a plain match, and on a
      text with no colon, a plain match is also an ARN match. */
  lemma ArnGlobIsPlainGlob(p: string, t: string)
    ensures NoLineTerminators(t) && Glob(p, t, true) ==> Glob(p, t, false)
    ensures NoColons(t) && Glob(p, t, false) ==> Glob(p, t, true)
  {
    if NoLineTerminators(t) && Glob(p, t, true) {
      ArnToPlain(p, t);
    }
    if NoColons(t) && Glob(p, t, false) {
      PlainToArn(p, t);
    }
  }
}
