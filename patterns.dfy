/** Domain patterns of the records file, the regular expressions
    `loadDB` compiles them to (server.php:150), and the unanchored,
    case-sensitive `preg_match` that `lookup` applies (server.php:163). */
module Patterns {

  /** One element of a compiled pattern: a character that must appear as is
      (a literal, or `\.` for a dot), or `.+`, one or more characters other
      than a newline (PCRE's `.` without the `s` modifier). */
  datatype Token = Lit(c: char) | AnyPlus

  type Pattern = seq<Token>

  function CompileChar(c: char): Token
  {
    if c == '*' then AnyPlus else Lit(c)
  }

  /** `str_replace(['.', '*'], ['\.', '.+'], domain)`: a dot stands for
      itself and a star for one or more characters. */
  function Compile(domain: string): (p: Pattern)
    ensures |p| == |domain|
    ensures forall k :: 0 <= k < |p| ==> p[k] == CompileChar(domain[k])
  {
    if domain == [] then [] else [CompileChar(domain[0])] + Compile(domain[1..])
  }

  // ----- What a pattern means -----

  /** The pattern matches the whole of `w`. */
  ghost predicate Denotes(p: Pattern, w: string)
    decreases |p|
  {
    if p == [] then w == []
    else match p[0]
      case Lit(c) => w != [] && w[0] == c && Denotes(p[1..], w[1..])
      case AnyPlus => exists k :: 1 <= k <= |w| && '\n' !in w[..k] && Denotes(p[1..], w[k..])
  }

  /** Unanchored matching: the pattern matches some substring of `s`. */
  ghost predicate Occurs(p: Pattern, s: string)
  {
    exists i, j :: 0 <= i <= j <= |s| && Denotes(p, s[i..j])
  }

  // ----- How the match is computed -----

  /** Whether `p` matches some prefix of `s`, trying every length of each
      `.+` from the shortest up. */
  function MatchPrefix(p: Pattern, s: string): (r: bool)
    ensures r ==> |p| <= |s|
    decreases |p|, |s| + 1
  {
    if p == [] then true
    else match p[0]
      case Lit(c) => s != [] && s[0] == c && MatchPrefix(p[1..], s[1..])
      case AnyPlus => PlusThen(p[1..], s, 1)
  }

  /** A `.+` that has consumed `s[..k - 1]` takes `s[k - 1]` too, and then
      either stops or goes on. */
  function PlusThen(rest: Pattern, s: string, k: nat): (r: bool)
    requires 1 <= k
    ensures r ==> k + |rest| <= |s|
    decreases |rest| + 1, |s| - k + 1
  {
    k <= |s| && s[k - 1] != '\n' && (MatchPrefix(rest, s[k..]) || PlusThen(rest, s, k + 1))
  }

  /** `preg_match` of the compiled pattern against `s`, unanchored. */
  function Search(p: Pattern, s: string): (r: bool)
    ensures p == [] ==> r
    ensures r ==> |p| <= |s|
  {
    assert MatchPrefix([], s[0..]);
    exists i | 0 <= i <= |s| :: MatchPrefix(p, s[i..])
  }

  // ----- The computation agrees with the meaning -----

  lemma {:induction false} PlusThenSpec(rest: Pattern, s: string, k: nat)
    requires 1 <= k
    ensures PlusThen(rest, s, k) <==>
      exists m :: k <= m <= |s| && '\n' !in s[k - 1..m] && MatchPrefix(rest, s[m..])
    decreases |s| - k + 1
  {
    if k <= |s| {
      PlusThenSpec(rest, s, k + 1);
      if PlusThen(rest, s, k) {
        if MatchPrefix(rest, s[k..]) {
          assert s[k - 1..k] == [s[k - 1]];
        } else {
          var m :| k + 1 <= m <= |s| && '\n' !in s[k..m] && MatchPrefix(rest, s[m..]);
          assert s[k - 1..m] == [s[k - 1]] + s[k..m];
        }
      }
      if exists m :: k <= m <= |s| && '\n' !in s[k - 1..m] && MatchPrefix(rest, s[m..]) {
        var m :| k <= m <= |s| && '\n' !in s[k - 1..m] && MatchPrefix(rest, s[m..]);
        assert s[k - 1] in s[k - 1..m];
        if m > k {
          assert s[k - 1..m] == [s[k - 1]] + s[k..m];
        }
      }
    }
  }

  /** Prefix matching finds exactly the prefixes the pattern denotes. */
  lemma {:induction false} MatchPrefixSpec(p: Pattern, s: string)
    ensures MatchPrefix(p, s) <==> exists j :: 0 <= j <= |s| && Denotes(p, s[..j])
    decreases |p|, 2
  {
    if p == [] {
      assert Denotes(p, s[..0]);
    } else if p[0].Lit? {
      LitSpec(p, s);
    } else {
      PlusSpec(p, s);
    }
  }

  lemma {:induction false} LitSpec(p: Pattern, s: string)
    requires p != [] && p[0].Lit?
    ensures MatchPrefix(p, s) <==> exists j :: 0 <= j <= |s| && Denotes(p, s[..j])
    decreases |p|, 1
  {
    if s != [] {
      MatchPrefixSpec(p[1..], s[1..]);
      if MatchPrefix(p, s) {
        var j' :| 0 <= j' <= |s| - 1 && Denotes(p[1..], s[1..][..j']);
        assert s[..j' + 1][1..] == s[1..][..j'];
        assert Denotes(p, s[..j' + 1]);
      }
      if exists j :: 0 <= j <= |s| && Denotes(p, s[..j]) {
        var j :| 0 <= j <= |s| && Denotes(p, s[..j]);
        assert s[..j][1..] == s[1..][..j - 1];
      }
    } else {
      assert forall j :: 0 <= j <= |s| ==> s[..j] == [];
    }
  }

  lemma {:induction false} PlusSpec(p: Pattern, s: string)
    requires p != [] && p[0].AnyPlus?
    ensures MatchPrefix(p, s) <==> exists j :: 0 <= j <= |s| && Denotes(p, s[..j])
    decreases |p|, 1
  {
    PlusThenSpec(p[1..], s, 1);
    if MatchPrefix(p, s) {
      var m :| 1 <= m <= |s| && '\n' !in s[0..m] && MatchPrefix(p[1..], s[m..]);
      PlusFound(p, s, m);
    }
    if exists j :: 0 <= j <= |s| && Denotes(p, s[..j]) {
      var j :| 0 <= j <= |s| && Denotes(p, s[..j]);
      PlusDenoted(p, s, j);
    }
  }

  lemma {:induction false} PlusFound(p: Pattern, s: string, m: nat)
    requires p != [] && p[0].AnyPlus?
    requires 1 <= m <= |s| && '\n' !in s[0..m] && MatchPrefix(p[1..], s[m..])
    ensures exists j :: 0 <= j <= |s| && Denotes(p, s[..j])
    decreases |p|, 0
  {
    var rest := p[1..];
    MatchPrefixSpec(rest, s[m..]);
    var j' :| 0 <= j' <= |s| - m && Denotes(rest, s[m..][..j']);
    var j := m + j';
    assert s[..j][..m] == s[0..m];
    assert s[..j][m..] == s[m..][..j'];
    assert Denotes(p, s[..j]);
  }

  lemma {:induction false} PlusDenoted(p: Pattern, s: string, j: nat)
    requires p != [] && p[0].AnyPlus?
    requires j <= |s| && Denotes(p, s[..j])
    ensures exists m :: 1 <= m <= |s| && '\n' !in s[0..m] && MatchPrefix(p[1..], s[m..])
    decreases |p|, 0
  {
    var rest := p[1..];
    var w := s[..j];
    var m :| 1 <= m <= |w| && '\n' !in w[..m] && Denotes(rest, w[m..]);
    assert w[..m] == s[0..m];
    assert w[m..] == s[m..][..j - m];
    MatchPrefixSpec(rest, s[m..]);
  }

  /** Property: the computed search is unanchored matching. */
  lemma SearchSpec(p: Pattern, s: string)
    ensures Search(p, s) <==> Occurs(p, s)
  {
    if Search(p, s) {
      var i :| 0 <= i <= |s| && MatchPrefix(p, s[i..]);
      MatchPrefixSpec(p, s[i..]);
      var j' :| 0 <= j' <= |s| - i && Denotes(p, s[i..][..j']);
      assert s[i..][..j'] == s[i..i + j'];
    }
    if Occurs(p, s) {
      var i, j :| 0 <= i <= j <= |s| && Denotes(p, s[i..j]);
      assert s[i..][..j - i] == s[i..j];
      MatchPrefixSpec(p, s[i..]);
    }
  }

  // ----- What patterns from the records file match -----

  /** Property: every character of a pattern consumes at least one character
      of the name, so a match spans at least as many characters as the
      pattern has. */
  lemma {:induction false} DenotesLength(p: Pattern, w: string)
    requires Denotes(p, w)
    ensures |w| >= |p|
    decreases |p|
  {
    if p != [] {
      match p[0]
      case Lit(c) =>
        DenotesLength(p[1..], w[1..]);
      case AnyPlus =>
        var k :| 1 <= k <= |w| && '\n' !in w[..k] && Denotes(p[1..], w[k..]);
        DenotesLength(p[1..], w[k..]);
    }
  }

  /** Property: a name shorter than a pattern never matches it; so
      `*.domain.local` does not match `domain.local`. */
  lemma TooShortNeverMatches(domain: string, s: string)
    requires |s| < |domain|
    ensures !Occurs(Compile(domain), s)
  {
    if Occurs(Compile(domain), s) {
      var i, j :| 0 <= i <= j <= |s| && Denotes(Compile(domain), s[i..j]);
      DenotesLength(Compile(domain), s[i..j]);
    }
  }

  /** Property: without a star, a pattern matches exactly its own text;
      in particular a dot matches only a dot. */
  lemma {:induction false} LiteralDenotes(domain: string, w: string)
    requires '*' !in domain
    ensures Denotes(Compile(domain), w) <==> w == domain
  {
    if domain != [] {
      assert domain[0] != '*';
      assert '*' !in domain[1..] by {
        assert forall k :: 0 <= k < |domain| - 1 ==> domain[1..][k] == domain[k + 1];
      }
      if w != [] {
        LiteralDenotes(domain[1..], w[1..]);
        assert w == [w[0]] + w[1..];
        assert domain == [domain[0]] + domain[1..];
      }
    }
  }

  /** `d` appears in `s` starting at offset `i`. */
  predicate AppearsAt(d: string, s: string, i: nat)
  {
    i + |d| <= |s| && s[i..i + |d|] == d
  }

  /** Property: a pattern without a star matches a name exactly when its text
      occurs somewhere in the name: `a.local` matches `xa.localy`. */
  lemma LiteralOccurs(domain: string, s: string)
    requires '*' !in domain
    ensures Occurs(Compile(domain), s) <==> exists i: nat :: AppearsAt(domain, s, i)
  {
    var p := Compile(domain);
    if Occurs(p, s) {
      var i, j :| 0 <= i <= j <= |s| && Denotes(p, s[i..j]);
      LiteralDenotes(domain, s[i..j]);
      assert AppearsAt(domain, s, i);
    }
    if exists i: nat :: AppearsAt(domain, s, i) {
      var i: nat :| AppearsAt(domain, s, i);
      LiteralDenotes(domain, s[i..i + |domain|]);
      assert Denotes(p, s[i..i + |domain|]);
    }
  }

  lemma CompileStar(domain: string)
    ensures Compile("*" + domain) == [AnyPlus] + Compile(domain)
  {
    assert ("*" + domain)[1..] == domain;
  }

  /** Property: a leading star followed by star-free text matches a whole
      word exactly when the word ends in that text after one or more
      characters none of which is a newline. Wildcards are not label-aware:
      `*.domain.local` matches `a.b.domain.local`. */
  lemma StarThenLiteral(domain: string, w: string)
    requires '*' !in domain
    ensures Denotes(Compile("*" + domain), w) <==>
      |w| > |domain| && w[|w| - |domain|..] == domain && '\n' !in w[..|w| - |domain|]
  {
    CompileStar(domain);
    if Denotes(Compile("*" + domain), w) {
      StarThenLiteralOnly(domain, w);
    }
    if |w| > |domain| && w[|w| - |domain|..] == domain && '\n' !in w[..|w| - |domain|] {
      StarThenLiteralIf(domain, w);
    }
  }

  lemma StarThenLiteralOnly(domain: string, w: string)
    requires '*' !in domain && Denotes([AnyPlus] + Compile(domain), w)
    ensures |w| > |domain| && w[|w| - |domain|..] == domain && '\n' !in w[..|w| - |domain|]
  {
    StarDenotes(Compile(domain), w);
    var k :| 1 <= k <= |w| && '\n' !in w[..k] && Denotes(Compile(domain), w[k..]);
    LiteralOnly(domain, w[k..]);
    SuffixAt(w, domain, k);
  }

  lemma SuffixAt(w: string, domain: string, k: nat)
    requires 1 <= k <= |w| && w[k..] == domain && '\n' !in w[..k]
    ensures |w| > |domain| && w[|w| - |domain|..] == domain && '\n' !in w[..|w| - |domain|]
  {
  }

  lemma LiteralOnly(domain: string, u: string)
    requires '*' !in domain && Denotes(Compile(domain), u)
    ensures u == domain
  {
    LiteralDenotes(domain, u);
  }

  lemma StarThenLiteralIf(domain: string, w: string)
    requires '*' !in domain
    requires |w| > |domain| && w[|w| - |domain|..] == domain && '\n' !in w[..|w| - |domain|]
    ensures Denotes([AnyPlus] + Compile(domain), w)
  {
    var n := |w| - |domain|;
    LiteralIf(domain, w[n..]);
    StarDenotes(Compile(domain), w);
  }

  lemma LiteralIf(domain: string, u: string)
    requires '*' !in domain && u == domain
    ensures Denotes(Compile(domain), u)
  {
    LiteralDenotes(domain, u);
  }

  lemma StarDenotes(q: Pattern, w: string)
    ensures Denotes([AnyPlus] + q, w) <==>
      exists k :: 1 <= k <= |w| && '\n' !in w[..k] && Denotes(q, w[k..])
  {
    assert ([AnyPlus] + q)[1..] == q;
  }

  /** Property: a leading-star pattern matches every name made of one or more
      non-newline characters followed by the rest of the pattern. */
  lemma StarMatchesAnyPrefix(prefix: string, domain: string)
    requires '*' !in domain && prefix != [] && '\n' !in prefix
    ensures Occurs(Compile("*" + domain), prefix + domain)
  {
    var w := prefix + domain;
    assert w[|w| - |domain|..] == domain && w[..|w| - |domain|] == prefix;
    StarThenLiteral(domain, w);
    assert w[0..|w|] == w;
  }

  /** Property: the wildcard example of the records-file format,
      `*.domain.local`, matches `sub.domain.local`. */
  lemma WildcardMatchesSub()
    ensures Occurs(Compile("*.domain.local"), "sub.domain.local")
  {
    var name := "sub.domain.local";
    assert name[..3] == "sub" && name[3..] == ".domain.local";
    assert name == name[..3] + name[3..];
    WildcardExample(name[..3]);
  }

  /** Property: `*.domain.local` matches `a.b.domain.local` too: a star is
      not confined to one label. */
  lemma WildcardMatchesDeeper()
    ensures Occurs(Compile("*.domain.local"), "a.b.domain.local")
  {
    var name := "a.b.domain.local";
    assert name[..3] == "a.b" && name[3..] == ".domain.local";
    assert name == name[..3] + name[3..];
    WildcardExample(name[..3]);
  }

  /** Property: `*.domain.local` does not match `domain.local`: the star
      needs at least one character. */
  lemma WildcardNeedsPrefix()
    ensures !Occurs(Compile("*.domain.local"), "domain.local")
  {
    TooShortNeverMatches("*.domain.local", "domain.local");
  }

  lemma WildcardExample(prefix: string)
    requires prefix != [] && '\n' !in prefix
    ensures Occurs(Compile("*.domain.local"), prefix + ".domain.local")
  {
    assert "*.domain.local" == "*" + ".domain.local";
    StarMatchesAnyPrefix(prefix, ".domain.local");
  }

  /** Property: matching is not anchored at either end. */
  lemma UnanchoredExample()
    ensures Occurs(Compile("a.local"), "xa.localy")
  {
    AppearsInside();
    LiteralOccurs("a.local", "xa.localy");
  }

  lemma AppearsInside()
    ensures AppearsAt("a.local", "xa.localy", 1)
  {
    assert "xa.localy"[1..8] == "a.local";
  }

  /** Property: compilation loses nothing, so distinct patterns of the
      records file are distinct keys of the database. */
  lemma {:induction false} CompileInjective(a: string, b: string)
    requires Compile(a) == Compile(b)
    ensures a == b
  {
    if a != [] {
      assert Compile(a)[0] == CompileChar(a[0]) && Compile(b)[0] == CompileChar(b[0]);
      assert Compile(a)[1..] == Compile(a[1..]) && Compile(b)[1..] == Compile(b[1..]);
      CompileInjective(a[1..], b[1..]);
      assert a == [a[0]] + a[1..] && b == [b[0]] + b[1..];
    }
  }
}
