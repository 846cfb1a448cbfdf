/**
 * `get_js_existence_logic_from_function`: turns an extractor expression into
 * a JavaScript condition that is true only when every object on the dotted
 * path of the expression's first space-separated token is defined, so that
 * evaluating the expression afterwards cannot throw.
 *
 * For `a.b.c` the condition is
 * `(typeof a !== "undefined" && typeof a.b !== "undefined" && typeof a.b.c !== "undefined")`.
 * When the first segment of the path contains `)` (the extractor starts with
 * a call such as `f().x`), the first check is narrowed to the name before the
 * first `(`.
 */
module Guard {
  import opened Text

  const Typeof: string := "typeof "
  const NotUndefined: string := " !== \"undefined\""
  const And: string := " && "

  /** The first space-separated token, split at its dots; only that token is ever looked at. */
  function Segments(js: string): (segs: seq<string>)
    ensures |segs| >= 1
    ensures forall k :: 0 <= k < |segs| ==> ' ' !in segs[k] && '.' !in segs[k]
  {
    var token := Split(js, ' ')[0];
    var segs := Split(token, '.');
    forall k | 0 <= k < |segs| ensures ' ' !in segs[k] {
      SplitPiecesFrom(token, '.', k);
    }
    segs
  }

  /** `building_part` after `i` segments: the dot goes in only once something has been built. */
  function Building(segs: seq<string>, i: nat): string
    requires i <= |segs|
  {
    if i == 0 then ""
    else
      var b := Building(segs, i - 1);
      (if |b| != 0 then b + "." else b) + segs[i - 1]
  }

  /** The paths checked, one per segment: `Building` after 1, 2, ..., `i` segments. */
  function Prefixes(segs: seq<string>, i: nat): (ps: seq<string>)
    requires i <= |segs|
    ensures |ps| == i
    ensures forall k :: 0 <= k < i ==> ps[k] == Building(segs, k + 1)
  {
    if i == 0 then [] else Prefixes(segs, i - 1) + [Building(segs, i)]
  }

  function Clause(p: string): string
  {
    Typeof + p + NotUndefined
  }

  function Clauses(ps: seq<string>): (cs: seq<string>)
    ensures |cs| == |ps|
    ensures forall k :: 0 <= k < |ps| ==> cs[k] == Clause(ps[k])
  {
    if ps == [] then [] else Clauses(ps[..|ps| - 1]) + [Clause(ps[|ps| - 1])]
  }

  /** The checks of all paths, joined with `&&` and parenthesised. */
  function Conjunction(ps: seq<string>): string
  {
    "(" + Join(Clauses(ps), And) + ")"
  }

  /** The name a call in the first path is made on: the text before its first `(`. */
  function Root(p: string): string
  {
    Split(p, '(')[0]
  }

  /** The post-processing: a first path containing `)` is replaced by its root, the others are kept. */
  function Rooted(ps: seq<string>): seq<string>
  {
    if ps != [] && ')' in ps[0] then [Root(ps[0])] + ps[1..] else ps
  }

  /** The condition generated for an extractor. */
  function GuardOf(js: string): string
  {
    var segs := Segments(js);
    Conjunction(Rooted(Prefixes(segs, |segs|)))
  }

  method GetJsExistenceLogicFromFunction(jsFunction: string) returns (script: string)
    ensures script == GuardOf(jsFunction)
  {
    script := "(";
    var functionSplitOnSpaces := Split(jsFunction, ' ');
    // The loop over the space-separated tokens ends with an unconditional
    // `break`, so only the first token is used.
    var substring := functionSplitOnSpaces[0];
    var substringSplitOnPeriods := Split(substring, '.');
    assert substringSplitOnPeriods == Segments(jsFunction);
    ghost var segs := substringSplitOnPeriods;
    var buildingPart := "";
    for i := 0 to |substringSplitOnPeriods|
      invariant buildingPart == Building(segs, i)
      invariant script == Opened(segs, i)
    {
      ghost var before := script;
      script := script + Typeof;
      if |buildingPart| != 0 {
        buildingPart := buildingPart + ".";
      }
      buildingPart := buildingPart + substringSplitOnPeriods[i];
      assert buildingPart == Building(segs, i + 1);
      script := script + buildingPart;
      script := script + NotUndefined + And;
      assert script == before + Typeof + Building(segs, i + 1) + NotUndefined + And;
      ConjunctionStep(segs, i);
    }
    ghost var ps := Prefixes(segs, |segs|);
    assert EndsWith(script, And) && script[..|script| - |And|] == "(" + Join(Clauses(ps), And) by {
      DropAnd("(" + Join(Clauses(ps), And));
    }
    if EndsWith(script, And) {
      script := script[..|script| - |And|];
    }
    script := script + ")";
    ghost var p1 := ps[0];
    ConjunctionHead(ps);
    FirstPathHasNoSpace(segs, ps);
    TailStartsWithSpace(ps);
    script := RootLeadingCall(script, p1, Tail(ps));
    RootedHead(ps);
  }

  /**
   * The second pass of `get_js_existence_logic_from_function`: it walks the
   * characters of the condition up to the second space, that is, through
   * the first path, and once it has seen both `(` (the opening parenthesis
   * always counts) and `)`, it replaces the first path by its root.
   */
  method RootLeadingCall(original: string, ghost p1: string, ghost tail: string) returns (script: string)
    requires original == "(" + Typeof + p1 + tail
    requires ' ' !in p1
    requires |tail| > 0 && tail[0] == ' '
    ensures script == if ')' in p1 then "(" + Typeof + Root(p1) + tail else original
  {
    script := original;
    ghost var rewritten := "(" + Typeof + Root(p1) + tail;
    RootFacts(p1);
    assert p1[..|p1|] == p1;
    // The loop walks the characters of the script as it was on entry,
    // even while `script` itself is being rewritten.
    var characters := script;
    var spaces := 0;
    var openParen := false;
    var closeParen := false;
    for i := 0 to |characters|
      invariant i <= 8 + |p1|
      invariant spaces == if i <= 7 then 0 else 1
      invariant openParen == (i > 0)
      invariant closeParen == (i > 8 && ')' in p1[..i - 8])
      invariant script == if closeParen then rewritten else original
    {
      var character := characters[i];
      HeadChar(p1, tail, i);
      if character == ' ' {
        spaces := spaces + 1;
      }
      if spaces > 1 {
        break;
      }
      if character == '(' {
        openParen := true;
      }
      if character == ')' {
        closeParen := true;
      }
      if i >= 8 {
        CloseSeenStep(p1, i - 8);
      }
      if openParen && closeParen {
        if script == original {
          FirstRewrite(p1, tail);
        } else {
          LaterRewrite(Root(p1), tail);
        }
        var rootFunction := Split(Split(script, ' ')[1], '(')[0];
        script := ReplaceFirst(script, Split(script, ' ')[1], rootFunction);
      }
    }
  }

  /** What follows the first path in the condition. */
  function Tail(ps: seq<string>): string
    requires ps != []
  {
    NotUndefined + (if |ps| == 1 then "" else And + Join(Clauses(ps[1..]), And)) + ")"
  }

  lemma CloseSeenStep(p: string, k: nat)
    requires k < |p|
    ensures (')' in p[..k + 1]) <==> (')' in p[..k] || p[k] == ')')
  {
    assert p[..k + 1] == p[..k] + [p[k]];
  }

  lemma TailStartsWithSpace(ps: seq<string>)
    requires ps != []
    ensures |Tail(ps)| > 0 && Tail(ps)[0] == ' '
  {
    assert Tail(ps)[0] == NotUndefined[0];
  }

  /** The script after the checks of the first `i` paths, each followed by ` && `. */
  function Opened(segs: seq<string>, i: nat): string
    requires i <= |segs|
  {
    "(" + Join(Clauses(Prefixes(segs, i)), And) + (if i == 0 then "" else And)
  }

  /** One more segment adds one more check. */
  lemma ConjunctionStep(segs: seq<string>, i: nat)
    requires i < |segs|
    ensures Opened(segs, i + 1) == Opened(segs, i) + Typeof + Building(segs, i + 1) + NotUndefined + And
  {
    var ps := Prefixes(segs, i);
    var b := Building(segs, i + 1);
    assert Prefixes(segs, i + 1) == ps + [b];
    assert (ps + [b])[..|ps|] == ps;
    assert Clauses(ps + [b]) == Clauses(ps) + [Clause(b)];
    JoinSnoc(Clauses(ps), And, Clause(b));
    if i == 0 {
      Regroup("(", [], [], Typeof, b, NotUndefined, And);
    } else {
      Regroup("(", Join(Clauses(ps), And), And, Typeof, b, NotUndefined, And);
    }
  }

  /** The trailing ` && ` is there to strip. */
  lemma DropAnd(s: string)
    ensures EndsWith(s + And, And) && (s + And)[..|s + And| - |And|] == s
  {
    assert (s + And)[|s|..] == And;
    assert (s + And)[..|s|] == s;
  }

  /** The condition starts with the check of the first path. */
  lemma ConjunctionHead(ps: seq<string>)
    requires ps != []
    ensures Conjunction(ps) == "(" + Typeof + ps[0] + Tail(ps)
  {
    var cs := Clauses(ps);
    var more := if |ps| == 1 then "" else And + Join(Clauses(ps[1..]), And);
    if |ps| == 1 {
      assert Join(cs, And) == Clause(ps[0]) + more;
    } else {
      assert cs[1..] == Clauses(ps[1..]);
      assert Join(cs, And) == Clause(ps[0]) + And + Join(Clauses(ps[1..]), And);
    }
    RegroupHead("(", Typeof, ps[0], NotUndefined, more, ")");
  }

  /** No path contains a space, in particular not the first one. */
  lemma FirstPathHasNoSpace(segs: seq<string>, ps: seq<string>)
    requires |segs| >= 1
    requires forall k :: 0 <= k < |segs| ==> ' ' !in segs[k]
    requires ps == Prefixes(segs, |segs|)
    ensures ps[0] == segs[0] && ' ' !in ps[0]
  {
    assert ps[0] == Building(segs, 1) == "" + segs[0];
  }

  /** The characters the second pass reads before it stops. */
  lemma HeadChar(p1: string, tail: string, i: nat)
    requires |tail| > 0 && tail[0] == ' '
    requires i <= 8 + |p1|
    ensures var s := "(" + Typeof + p1 + tail;
      && i < |s|
      && (i == 0 ==> s[i] == '(')
      && (0 < i < 7 ==> s[i] != ' ' && s[i] != '(' && s[i] != ')')
      && (i == 7 ==> s[i] == ' ')
      && (8 <= i < 8 + |p1| ==> s[i] == p1[i - 8])
      && (i == 8 + |p1| ==> s[i] == ' ')
  {
    var s := "(" + Typeof + p1 + tail;
    assert s == "(typeof " + p1 + tail;
    if i == 8 + |p1| {
      assert s[i] == tail[0];
    }
  }

  /** The second space-separated piece of `(typeof x <tail>)` is `x`. */
  lemma SecondPiece(p: string, tail: string)
    requires ' ' !in p
    requires |tail| > 0 && tail[0] == ' '
    ensures ' ' in "(" + Typeof + p + tail
    ensures |Split("(" + Typeof + p + tail, ' ')| >= 2 && Split("(" + Typeof + p + tail, ' ')[1] == p
  {
    var h := "(" + Typeof;
    var s := h + p + tail;
    var rest := p + tail;
    assert h == h[..7] + [' '];
    assert ' ' !in h[..7];
    assert s == h[..7] + [' '] + rest;
    SplitAfter(h[..7], ' ', rest);
    assert Find(rest, ' ') == |p| by {
      assert rest[|p|] == ' ';
      assert rest[..|p|] == p;
    }
    assert rest[..|p|] == p;
  }

  /** The first rewrite cuts the first path before its first `(`. */
  lemma FirstRewrite(p1: string, tail: string)
    requires ' ' !in p1 && ')' in p1
    requires |tail| > 0 && tail[0] == ' '
    ensures var s := "(" + Typeof + p1 + tail;
      && ' ' in s && |Split(s, ' ')| >= 2 && Split(s, ' ')[1] == p1
      && ReplaceFirst(s, p1, Split(p1, '(')[0]) == "(" + Typeof + Root(p1) + tail
  {
    var s := "(" + Typeof + p1 + tail;
    SecondPiece(p1, tail);
    assert s[..8] == "(" + Typeof;
    assert OccursAt(s, p1, 8) by {
      assert s[8..8 + |p1|] == p1;
    }
    forall j | 0 <= j < 8 ensures !OccursAt(s, p1, j) {
      NoEarlierOccurrence(s, p1, j);
    }
    ReplaceFirstAt(s, p1, Root(p1), 8);
    assert s[8 + |p1|..] == tail;
  }

  /** `p1` cannot sit inside `(typeof `: it holds `)` and no space. */
  lemma NoEarlierOccurrence(s: string, p1: string, j: nat)
    requires ' ' !in p1 && ')' in p1
    requires |s| >= 8 && s[..8] == "(" + Typeof
    requires j < 8
    ensures !OccursAt(s, p1, j)
  {
    if j + |p1| <= |s| {
      var w := s[j..j + |p1|];
      if j + |p1| > 7 {
        assert w[7 - j] == s[7] == ' ';
        assert w[7 - j] != p1[7 - j];
      } else {
        var q :| 0 <= q < |p1| && p1[q] == ')';
        assert w[q] == s[j + q] == ("(" + Typeof)[j + q];
        assert w[q] != p1[q];
      }
    }
  }

  /** Every later rewrite replaces the root by itself. */
  lemma LaterRewrite(root: string, tail: string)
    requires |tail| > 0 && tail[0] == ' '
    requires ' ' !in root && '(' !in root
    ensures var s := "(" + Typeof + root + tail;
      && ' ' in s && |Split(s, ' ')| >= 2 && Split(s, ' ')[1] == root
      && ReplaceFirst(s, root, Split(root, '(')[0]) == s
  {
    SecondPiece(root, tail);
    assert Split(root, '(')[0] == root by {
      assert root[..|root|] == root;
    }
    ReplaceFirstSelf("(" + Typeof + root + tail, root);
  }

  /** The root of a path has neither spaces nor `(`. */
  lemma RootFacts(p: string)
    requires ' ' !in p
    ensures ' ' !in Root(p) && '(' !in Root(p)
    ensures Root(p) == p[..Find(p, '(')]
  {
  }

  /** Rooting changes only the first path, so the rest of the condition stays. */
  lemma RootedHead(ps: seq<string>)
    requires ps != []
    ensures Conjunction(Rooted(ps)) == if ')' in ps[0] then "(" + Typeof + Root(ps[0]) + Tail(ps) else Conjunction(ps)
  {
    if ')' in ps[0] {
      var r := Rooted(ps);
      ConjunctionHead(r);
      assert r[1..] == ps[1..];
      assert Tail(r) == Tail(ps);
    }
  }

  /** Only the first space-separated token counts: anything after the first space is ignored. */
  lemma FirstTokenOnly(token: string, rest: string)
    requires ' ' !in token
    ensures GuardOf(token + [' '] + rest) == GuardOf(token)
  {
    SplitAfter(token, ' ', rest);
    assert Split(token, ' ') == [token];
  }

  /** While only empty segments have been seen, nothing has been built. */
  lemma {:induction false} BuildingEmptyLead(segs: seq<string>, i: nat)
    requires i <= |segs|
    requires forall k :: 0 <= k < i ==> segs[k] == ""
    ensures Building(segs, i) == ""
  {
    if i > 0 {
      BuildingEmptyLead(segs, i - 1);
    }
  }

  /**
   * From the first non-empty segment `f` on, each path is the segments from
   * `f` up to the current one joined with dots: leading empty segments (a
   * token that starts with `.`) leave no dot behind, later ones do.
   */
  lemma {:induction false} BuildingJoin(segs: seq<string>, f: nat, i: nat)
    requires f < i <= |segs|
    requires forall k :: 0 <= k < f ==> segs[k] == ""
    requires segs[f] != ""
    ensures Building(segs, i) == Join(segs[f..i], ".")
    ensures |Building(segs, i)| > 0
  {
    if i == f + 1 {
      BuildingEmptyLead(segs, f);
      assert segs[f..i] == [segs[f]];
    } else {
      BuildingJoin(segs, f, i - 1);
      var b := Building(segs, i - 1);
      assert Building(segs, i) == b + "." + segs[i - 1];
      assert segs[f..i] == segs[f..i - 1] + [segs[i - 1]] && segs[f..i - 1] != [];
      JoinSnoc(segs[f..i - 1], ".", segs[i - 1]);
    }
  }

  /**
   * The condition for an extractor whose first path makes no call: one
   * check per segment, the `k`th on the first `k + 1` segments joined with
   * dots, in order.
   */
  lemma GuardChecksEveryPrefix(js: string)
    requires Segments(js)[0] != "" && ')' !in Segments(js)[0]
    ensures var segs := Segments(js);
      GuardOf(js) == Conjunction(Prefixes(segs, |segs|)) &&
      forall k :: 0 <= k < |segs| ==> Prefixes(segs, |segs|)[k] == Join(segs[..k + 1], ".")
  {
    var segs := Segments(js);
    var ps := Prefixes(segs, |segs|);
    FirstPathHasNoSpace(segs, ps);
    assert Rooted(ps) == ps;
    forall k | 0 <= k < |segs| ensures ps[k] == Join(segs[..k + 1], ".") {
      BuildingPrefix(segs, k);
    }
  }

  /** With a non-empty first segment, the `k`th path is the first `k + 1` segments joined with dots. */
  lemma BuildingPrefix(segs: seq<string>, k: nat)
    requires k < |segs| && segs[0] != ""
    ensures Building(segs, k + 1) == Join(segs[..k + 1], ".")
  {
    BuildingJoin(segs, 0, k + 1);
    assert segs[0..k + 1] == segs[..k + 1];
  }

  /**
   * The condition for an extractor whose first path contains `)`: the first
   * check is on the name before the first `(`, which holds no `(`; every
   * later check is on the full path as built.
   */
  lemma GuardNarrowsLeadingCall(js: string)
    requires ')' in Segments(js)[0]
    ensures var segs := Segments(js);
      var ps := Prefixes(segs, |segs|);
      && GuardOf(js) == Conjunction([Root(segs[0])] + ps[1..])
      && '(' !in Root(segs[0])
      && Root(segs[0]) <= segs[0]
  {
    var segs := Segments(js);
    FirstPathHasNoSpace(segs, Prefixes(segs, |segs|));
  }
}
