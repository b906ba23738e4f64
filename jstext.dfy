/**
 * The JavaScript string operations the extension relies on: the `\s`
 * class and `trim`, `replace(/\s+/g, ' ')`, `substring(0, n)`,
 * `startsWith`, `includes` and a global, case-insensitive `replace` of a
 * fixed phrase by the empty string.
 */
module JsText {

  /** The WhiteSpace and LineTerminator code points matched by `\s` and removed by `trim`. */
  predicate IsSpace(c: char) {
    || c == ' ' || c == '\t' || c == '\n' || c == '\r' || c == '\U{000B}' || c == '\U{000C}'
    || c == '\U{00A0}' || c == '\U{1680}' || ('\U{2000}' <= c <= '\U{200A}')
    || c == '\U{2028}' || c == '\U{2029}' || c == '\U{202F}' || c == '\U{205F}'
    || c == '\U{3000}' || c == '\U{FEFF}'
  }

  /** The characters of `s` that are not white space, in order. */
  function NonSpaces(s: string): string {
    if s == [] then [] else (if IsSpace(s[0]) then [] else [s[0]]) + NonSpaces(s[1..])
  }

  /** String.prototype.trimStart: the suffix left after the leading white space. */
  function TrimStart(s: string): (r: string)
    ensures |r| <= |s|
    ensures r == [] || !IsSpace(r[0])
  {
    if s != [] && IsSpace(s[0]) then TrimStart(s[1..]) else s
  }

  /** trimStart keeps a suffix of its input. */
  lemma {:induction false} TrimStartIsSuffix(s: string)
    ensures TrimStart(s) == s[|s| - |TrimStart(s)|..]
    decreases |s|
  {
    if s != [] && IsSpace(s[0]) {
      TrimStartIsSuffix(s[1..]);
      assert s[1..][|s[1..]| - |TrimStart(s[1..])|..] == s[|s| - |TrimStart(s)|..];
    }
  }

  /** What trimStart removes is white space. */
  lemma {:induction false} TrimStartSkipsSpaces(s: string)
    ensures forall i :: 0 <= i < |s| - |TrimStart(s)| ==> IsSpace(s[i])
    decreases |s|
  {
    if s != [] && IsSpace(s[0]) {
      TrimStartSkipsSpaces(s[1..]);
      assert forall i :: 1 <= i < |s| ==> s[i] == s[1..][i - 1];
    }
  }

  /** String.prototype.trimEnd: the prefix left before the trailing white space. */
  function TrimEnd(s: string): (r: string)
    ensures |r| <= |s|
    ensures r == [] || !IsSpace(r[|r| - 1])
  {
    if s != [] && IsSpace(s[|s| - 1]) then TrimEnd(s[..|s| - 1]) else s
  }

  /** trimEnd keeps a prefix of its input. */
  lemma {:induction false} TrimEndIsPrefix(s: string)
    ensures TrimEnd(s) == s[..|TrimEnd(s)|]
    decreases |s|
  {
    if s != [] && IsSpace(s[|s| - 1]) {
      TrimEndIsPrefix(s[..|s| - 1]);
    }
  }

  /** What trimEnd removes is white space. */
  lemma {:induction false} TrimEndSkipsSpaces(s: string)
    ensures forall i :: |TrimEnd(s)| <= i < |s| ==> IsSpace(s[i])
    decreases |s|
  {
    if s != [] && IsSpace(s[|s| - 1]) {
      TrimEndSkipsSpaces(s[..|s| - 1]);
    }
  }

  /** String.prototype.trim. */
  function Trim(s: string): (r: string)
    ensures |r| <= |s|
    ensures r == [] || (!IsSpace(r[0]) && !IsSpace(r[|r| - 1]))
  {
    TrimEndIsPrefix(TrimStart(s));
    TrimEnd(TrimStart(s))
  }

  /** A string that neither starts nor ends with white space is its own trim. */
  lemma TrimOfTrimmed(s: string)
    requires s == [] || (!IsSpace(s[0]) && !IsSpace(s[|s| - 1]))
    ensures Trim(s) == s
  {
  }

  /** What trim returns is a piece of its input. */
  lemma TrimIsInfix(s: string)
    ensures exists k :: 0 <= k <= |s| && StartsWith(s[k..], Trim(s))
  {
    var t := TrimStart(s);
    TrimStartIsSuffix(s);
    TrimEndIsPrefix(t);
    assert StartsWith(s[|s| - |t|..], Trim(s));
  }

  /** trim drops white space only. */
  lemma TrimKeepsNonSpaces(s: string)
    ensures NonSpaces(Trim(s)) == NonSpaces(s)
  {
    TrimStartDropsOnlySpaces(s);
    TrimEndDropsOnlySpaces(TrimStart(s));
  }

  /** No two neighbouring characters are both white space. */
  predicate NoSpaceRuns(s: string) {
    forall i :: 0 <= i < |s| - 1 ==> !(IsSpace(s[i]) && IsSpace(s[i + 1]))
  }

  /** Every white-space character is a plain ' '. */
  predicate SpacesAreBlank(s: string) {
    forall i :: 0 <= i < |s| && IsSpace(s[i]) ==> s[i] == ' '
  }

  /** `s.replace(/\s+/g, ' ')`: every maximal run of white space becomes one ' '. */
  function CollapseSpaces(s: string): (r: string)
    ensures |r| <= |s|
    ensures r == [] <==> s == []
    ensures r != [] ==> (IsSpace(r[0]) <==> IsSpace(s[0]))
    ensures r != [] ==> (IsSpace(r[|r| - 1]) <==> IsSpace(s[|s| - 1]))
    ensures NoSpaceRuns(r)
    ensures SpacesAreBlank(r)
    decreases |s|
  {
    if s == [] then []
    else if IsSpace(s[0]) then
      var rest := TrimStart(s);
      var tail := CollapseSpaces(rest);
      TrimStartIsSuffix(s);
      TrimStartSkipsSpaces(s);
      assert rest != [] ==> rest[|rest| - 1] == s[|s| - 1];
      ConsKeepsRuns(' ', tail);
      [' '] + tail
    else
      var tail := CollapseSpaces(s[1..]);
      ConsKeepsRuns(s[0], tail);
      [s[0]] + tail
  }

  lemma ConsKeepsRuns(c: char, t: string)
    requires NoSpaceRuns(t) && SpacesAreBlank(t)
    requires t == [] || !IsSpace(c) || !IsSpace(t[0])
    requires IsSpace(c) ==> c == ' '
    ensures NoSpaceRuns([c] + t) && SpacesAreBlank([c] + t)
  {
    var r := [c] + t;
    assert forall i :: 1 <= i < |r| ==> r[i] == t[i - 1];
  }

  /** Collapsing keeps every character that is not white space, in order. */
  lemma {:induction false} CollapseKeepsNonSpaces(s: string)
    ensures NonSpaces(CollapseSpaces(s)) == NonSpaces(s)
    decreases |s|
  {
    if s == [] {
    } else if IsSpace(s[0]) {
      var rest := TrimStart(s);
      CollapseKeepsNonSpaces(rest);
      TrimStartDropsOnlySpaces(s);
      assert ([' '] + CollapseSpaces(rest))[1..] == CollapseSpaces(rest);
    } else {
      CollapseKeepsNonSpaces(s[1..]);
      assert ([s[0]] + CollapseSpaces(s[1..]))[1..] == CollapseSpaces(s[1..]);
    }
  }

  lemma TailOfAppend<T>(a: seq<T>, b: seq<T>)
    requires a != []
    ensures (a + b)[1..] == a[1..] + b
  {
  }

  lemma ConsHeadTail<T>(a: seq<T>)
    requires a != []
    ensures a == [a[0]] + a[1..]
  {
  }

  lemma AppendAssoc<T>(a: seq<T>, b: seq<T>, c: seq<T>)
    ensures a + b + c == a + (b + c)
  {
  }

  /** A string without white space is left as it is. */
  lemma {:induction false} CollapseNoSpaces(s: string)
    requires forall i :: 0 <= i < |s| ==> !IsSpace(s[i])
    ensures CollapseSpaces(s) == s
    decreases |s|
  {
    if s != [] {
      CollapseNoSpaces(s[1..]);
    }
  }

  /** A non-empty run made only of white space becomes a single ' '. */
  lemma {:induction false} CollapseRunOfSpaces(w: string)
    requires w != [] && forall i :: 0 <= i < |w| ==> IsSpace(w[i])
    ensures CollapseSpaces(w) == " "
  {
    TrimStartOfSpaces(w);
  }

  lemma {:induction false} TrimStartOfSpaces(w: string)
    requires forall i :: 0 <= i < |w| ==> IsSpace(w[i])
    ensures TrimStart(w) == []
    decreases |w|
  {
    if w != [] {
      TrimStartOfSpaces(w[1..]);
    }
  }

  /** trimStart of a concatenation only reaches into `b` when `a` is all white space and `b` starts with some. */
  lemma {:induction false} TrimStartAppend(a: string, b: string)
    requires TrimStart(a) != [] || b == [] || !IsSpace(b[0])
    ensures TrimStart(a + b) == TrimStart(a) + b
    decreases |a|
  {
    if a == [] {
      assert a + b == b;
    } else if IsSpace(a[0]) {
      TailOfAppend(a, b);
      TrimStartAppend(a[1..], b);
    }
  }

  /** Collapsing works piecewise when the cut does not fall inside a run of white space. */
  lemma {:induction false} CollapseAppend(a: string, b: string)
    requires a == [] || b == [] || !IsSpace(a[|a| - 1]) || !IsSpace(b[0])
    ensures CollapseSpaces(a + b) == CollapseSpaces(a) + CollapseSpaces(b)
    decreases |a|
  {
    if a == [] {
      assert a + b == b;
    } else if !IsSpace(a[0]) {
      assert a[1..] == [] || a[1..][|a[1..]| - 1] == a[|a| - 1];
      CollapseAppend(a[1..], b);
      CollapseAppendWord(a, b);
    } else {
      var rest := TrimStart(a);
      TrimStartIsSuffix(a);
      if rest != [] {
        assert rest[|rest| - 1] == a[|a| - 1];
        CollapseAppend(rest, b);
      }
      CollapseAppendSpace(a, b);
    }
  }

  /** The step of CollapseAppend for a first character that is not white space. */
  lemma CollapseAppendWord(a: string, b: string)
    requires a != [] && !IsSpace(a[0])
    requires CollapseSpaces(a[1..] + b) == CollapseSpaces(a[1..]) + CollapseSpaces(b)
    ensures CollapseSpaces(a + b) == CollapseSpaces(a) + CollapseSpaces(b)
  {
    TailOfAppend(a, b);
    assert (a + b)[0] == a[0];
    assert CollapseSpaces(a + b) == [a[0]] + CollapseSpaces(a[1..] + b);
    AppendAssoc([a[0]], CollapseSpaces(a[1..]), CollapseSpaces(b));
  }

  /** The step of CollapseAppend for a leading run of white space. */
  lemma CollapseAppendSpace(a: string, b: string)
    requires a != [] && IsSpace(a[0])
    requires b == [] || !IsSpace(a[|a| - 1]) || !IsSpace(b[0])
    requires TrimStart(a) != [] ==>
               CollapseSpaces(TrimStart(a) + b) == CollapseSpaces(TrimStart(a)) + CollapseSpaces(b)
    ensures CollapseSpaces(a + b) == CollapseSpaces(a) + CollapseSpaces(b)
  {
    var rest := TrimStart(a);
    TrimStartSkipsSpaces(a);
    assert rest == [] ==> IsSpace(a[|a| - 1]);
    TrimStartAppend(a, b);
    assert (a + b)[0] == a[0];
    assert CollapseSpaces(a + b) == [' '] + CollapseSpaces(rest + b);
    assert CollapseSpaces(a) == [' '] + CollapseSpaces(rest);
    if rest == [] {
      assert rest + b == b;
      assert CollapseSpaces(a) == [' '];
    } else {
      AppendAssoc([' '], CollapseSpaces(rest), CollapseSpaces(b));
    }
  }

  /** Each maximal run of white space between two other characters becomes exactly one ' '. */
  lemma CollapseRun(a: string, w: string, b: string)
    requires a == [] || !IsSpace(a[|a| - 1])
    requires w != [] && forall i :: 0 <= i < |w| ==> IsSpace(w[i])
    requires b == [] || !IsSpace(b[0])
    ensures CollapseSpaces(a + w + b) == CollapseSpaces(a) + " " + CollapseSpaces(b)
  {
    CollapseAppend(w, b);
    CollapseRunOfSpaces(w);
    CollapseAppend(a, w + b);
    AppendAssoc(a, w, b);
    AppendAssoc(CollapseSpaces(a), " ", CollapseSpaces(b));
  }

  lemma {:induction false} TrimStartDropsOnlySpaces(s: string)
    ensures NonSpaces(TrimStart(s)) == NonSpaces(s)
    decreases |s|
  {
    if s != [] && IsSpace(s[0]) {
      TrimStartDropsOnlySpaces(s[1..]);
    }
  }

  lemma {:induction false} TrimEndDropsOnlySpaces(s: string)
    ensures NonSpaces(TrimEnd(s)) == NonSpaces(s)
    decreases |s|
  {
    if s != [] && IsSpace(s[|s| - 1]) {
      var u := s[..|s| - 1];
      TrimEndDropsOnlySpaces(u);
      NonSpacesAppend(u, [s[|s| - 1]]);
      assert u + [s[|s| - 1]] == s;
    }
  }

  lemma {:induction false} NonSpacesAppend(a: string, b: string)
    ensures NonSpaces(a + b) == NonSpaces(a) + NonSpaces(b)
    decreases |a|
  {
    if a == [] {
      assert a + b == b;
    } else {
      var h := if IsSpace(a[0]) then [] else [a[0]];
      NonSpacesAppend(a[1..], b);
      assert (a + b)[0] == a[0];
      assert (a + b)[1..] == a[1..] + b;
      assert NonSpaces(a + b) == h + NonSpaces(a[1..] + b);
      assert NonSpaces(a) == h + NonSpaces(a[1..]);
    }
  }

  /** `s.substring(0, n)` for n >= 0: the first min(n, |s|) characters. */
  function Prefix(s: string, n: nat): (r: string)
    ensures |r| == if |s| <= n then |s| else n
    ensures r == s[..|r|]
  {
    if |s| <= n then s else s[..n]
  }

  predicate StartsWith(s: string, p: string) {
    |p| <= |s| && s[..|p|] == p
  }

  /** String.prototype.includes. */
  predicate Includes(s: string, p: string) {
    exists i :: 0 <= i <= |s| && StartsWith(s[i..], p)
  }

  /** `s.replace(/.../i)` compares characters after ASCII upper-casing (exact for ASCII phrases). */
  function AsciiUpper(c: char): char {
    if 'a' <= c <= 'z' then (c as int - 32) as char else c
  }

  predicate MatchesAtStart(s: string, p: string) {
    |p| <= |s| && forall i :: 0 <= i < |p| ==> AsciiUpper(s[i]) == AsciiUpper(p[i])
  }

  predicate OccursIn(s: string, p: string) {
    exists i :: 0 <= i <= |s| - |p| && MatchesAtStart(s[i..], p)
  }

  /**
   * `s.replace(/p/gi, '')` for a fixed ASCII phrase `p`: scanning left to
   * right, every non-overlapping case-insensitive occurrence is dropped.
   */
  function RemoveAll(s: string, p: string): (r: string)
    requires p != []
    ensures |r| <= |s|
    ensures !OccursIn(s, p) ==> r == s
    ensures OccursIn(s, p) ==> |r| <= |s| - |p|
    decreases |s|
  {
    if s == [] then []
    else if MatchesAtStart(s, p) then
      assert s[0..] == s;
      RemoveAll(s[|p|..], p)
    else
      assert OccursIn(s, p) <==> OccursIn(s[1..], p) by {
        if OccursIn(s[1..], p) {
          var i :| 0 <= i <= |s[1..]| - |p| && MatchesAtStart(s[1..][i..], p);
          assert s[1..][i..] == s[i + 1..];
        }
        if OccursIn(s, p) {
          var i :| 0 <= i <= |s| - |p| && MatchesAtStart(s[i..], p);
          assert i != 0;
          assert s[1..][i - 1..] == s[i..];
        }
      }
      [s[0]] + RemoveAll(s[1..], p)
  }

  /**
   * The `g` flag: the first case-insensitive occurrence is dropped and
   * the scan goes on in what follows it.
   */
  lemma {:induction false} RemoveAllLeftmost(a: string, q: string, b: string, p: string)
    requires p != [] && |q| == |p| && MatchesAtStart(q, p)
    requires forall i :: 0 <= i < |a| ==> !MatchesAtStart((a + q + b)[i..], p)
    ensures RemoveAll(a + q + b, p) == a + RemoveAll(b, p)
    decreases |a|
  {
    var s := a + q + b;
    if a == [] {
      assert s == q + b;
      assert MatchesAtStart(s, p) by {
        forall i | 0 <= i < |p| ensures AsciiUpper(s[i]) == AsciiUpper(p[i]) {
          assert s[i] == q[i];
        }
      }
      assert RemoveAll(s, p) == RemoveAll(s[|p|..], p);
      assert s[|p|..] == b;
    } else {
      assert !MatchesAtStart(s, p) by {
        assert s[0..] == s;
      }
      assert RemoveAll(s, p) == [s[0]] + RemoveAll(s[1..], p);
      TailOfAppend(a, q + b);
      AppendAssoc(a, q, b);
      AppendAssoc(a[1..], q, b);
      forall i | 0 <= i < |a| - 1
        ensures !MatchesAtStart((a[1..] + q + b)[i..], p)
      {
        assert (a[1..] + q + b)[i..] == s[i + 1..];
      }
      RemoveAllLeftmost(a[1..], q, b, p);
      ConsHeadTail(a);
      AppendAssoc([a[0]], a[1..], RemoveAll(b, p));
    }
  }

  /** Array.prototype.join. */
  function Join(parts: seq<string>, sep: string): (r: string)
    ensures parts == [] ==> r == []
    ensures |parts| == 1 ==> r == parts[0]
    ensures |parts| >= 2 ==> r == Join(parts[..|parts| - 1], sep) + sep + parts[|parts| - 1]
  {
    if parts == [] then []
    else if |parts| == 1 then parts[0]
    else
      var rest := parts[1..];
      var r := parts[0] + sep + Join(rest, sep);
      assert r == Join(parts[..|parts| - 1], sep) + sep + parts[|parts| - 1] by {
        var init := parts[..|parts| - 1];
        if |parts| > 2 {
          assert init[1..] == rest[..|rest| - 1];
        }
      }
      r
  }
}
