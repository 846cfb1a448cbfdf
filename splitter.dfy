/**
 * The compound extractor splitter (`break_up_compound_extractors`).
 *
 * A database expression such as `(jQuery|$|jq).fn.jquery` names several
 * globals at once. With the spaces removed, an expression that starts with the
 * pattern `\([a-zA-Z\$\|]+\)\.` is expanded into one expression per non-empty
 * alternative, each followed by the text between the first and the second `)`.
 * Any other expression is kept as it is, spaces included, unless it starts
 * with `new ` in any casing, in which case it is dropped.
 */
module Splitter {
  import opened Text

  /** The character class `[a-zA-Z\$\|]` of the alternation pattern. */
  predicate IsGroupChar(c: char)
  {
    'a' <= c <= 'z' || 'A' <= c <= 'Z' || c == '$' || c == '|'
  }

  /** The end of the longest run of group characters that starts at `i`. */
  function GroupRun(t: string, i: nat): (j: nat)
    requires i <= |t|
    ensures i <= j <= |t|
    ensures forall k :: i <= k < j ==> IsGroupChar(t[k])
    ensures j < |t| ==> !IsGroupChar(t[j])
    decreases |t| - i
  {
    if i == |t| || !IsGroupChar(t[i]) then i else GroupRun(t, i + 1)
  }

  /** The pattern `\([a-zA-Z\$\|]+\)\.` matches at position 0 of `t`, with its `)` at index `k`. */
  predicate PatternEndsAt(t: string, k: nat)
  {
    2 <= k && k + 1 < |t| && t[0] == '(' &&
    (forall i :: 1 <= i < k ==> IsGroupChar(t[i])) &&
    t[k] == ')' && t[k + 1] == '.'
  }

  /**
   * `re.match` of the alternation pattern, decided without backtracking: the
   * group characters after the `(` run up to a `)` that is followed by a `.`.
   */
  predicate MatchesAlternation(t: string)
  {
    |t| > 0 && t[0] == '(' &&
    var j := GroupRun(t, 1);
    j > 1 && j + 1 < |t| && t[j] == ')' && t[j + 1] == '.'
  }

  /** The greedy test agrees with the regular expression, and the `)` it finds is the only one possible. */
  lemma MatchesAlternationIff(t: string)
    ensures MatchesAlternation(t) <==> exists k :: PatternEndsAt(t, k)
    ensures forall k :: PatternEndsAt(t, k) ==> k == GroupRun(t, 1)
  {
    forall k: nat | PatternEndsAt(t, k) ensures k == GroupRun(t, 1) {
    }
    if MatchesAlternation(t) {
      assert PatternEndsAt(t, GroupRun(t, 1));
    }
  }

  /** Index of the `)` that closes the leading alternation group. */
  function GroupEnd(t: string): (j: nat)
    requires MatchesAlternation(t)
    ensures PatternEndsAt(t, j)
  {
    GroupRun(t, 1)
  }

  /** `match.group(0).replace('(','').replace(')','').replace('.','')`. */
  function Interior(t: string): string
    requires MatchesAlternation(t)
  {
    var j := GroupEnd(t);
    Remove(Remove(Remove(t[..j + 2], '('), ')'), '.')
  }

  /** The interior is exactly the text between the leading `(` and its `)`. */
  lemma InteriorIsGroupText(t: string)
    requires MatchesAlternation(t)
    ensures Interior(t) == t[1..GroupEnd(t)]
  {
    var j := GroupEnd(t);
    var inner := t[1..j];
    assert t[..j + 2] == "(" + (inner + ").");
    forall i | 0 <= i < |inner| ensures IsGroupChar(inner[i]) {
      assert inner[i] == t[i + 1];
    }
    RemovePunctuation(inner);
  }

  /** Removing `(`, then `)`, then `.` from `(` + inner + `).` leaves the group characters. */
  lemma RemovePunctuation(inner: string)
    requires forall i :: 0 <= i < |inner| ==> IsGroupChar(inner[i])
    ensures Remove(Remove(Remove("(" + (inner + ")."), '('), ')'), '.') == inner
  {
    assert '(' !in inner && ')' !in inner && '.' !in inner by {
      forall i | 0 <= i < |inner| ensures inner[i] != '(' && inner[i] != ')' && inner[i] != '.' {
        assert IsGroupChar(inner[i]);
      }
    }
    RemoveOpening(inner);
    RemoveClosing(inner);
    RemoveDot(inner);
  }

  lemma RemoveOpening(inner: string)
    requires '(' !in inner
    ensures Remove("(" + (inner + ")."), '(') == inner + ")."
  {
    var closing := inner + ").";
    assert '(' !in closing by {
      assert closing == inner + [')', '.'];
    }
    RemoveAppend("(", closing, '(');
    assert Remove("(", '(') == [];
  }

  lemma RemoveClosing(inner: string)
    requires ')' !in inner
    ensures Remove(inner + ").", ')') == inner + "."
  {
    RemoveAppend(inner, ").", ')');
    assert Remove(").", ')') == ".";
  }

  lemma RemoveDot(inner: string)
    requires '.' !in inner
    ensures Remove(inner + ".", '.') == inner
  {
    RemoveAppend(inner, ".", '.');
    assert Remove(".", '.') == [];
  }

  /** The alternatives `a`, `b`, `$c` of a leading `(a|b|$c).` group, empty ones included. */
  function Alternatives(t: string): seq<string>
    requires MatchesAlternation(t)
  {
    Split(Interior(t), '|')
  }

  /** `t.split(')')[1]`: the text between the first and the second `)`. */
  function Rest(t: string): string
    requires MatchesAlternation(t)
  {
    assert t[GroupEnd(t)] == ')';
    Split(t, ')')[1]
  }

  /** The suffix shared by the expanded expressions starts with the `.` after the group and stops before the next `)`. */
  lemma RestIsUpToSecondParen(t: string)
    requires MatchesAlternation(t)
    ensures var after := t[GroupEnd(t) + 1..];
      Rest(t) == after[..Find(after, ')')]
    ensures StartsWith(Rest(t), ".") && ')' !in Rest(t)
  {
    var j := GroupEnd(t);
    assert t == t[..j] + [')'] + t[j + 1..];
    forall i | 0 <= i < j ensures t[..j][i] != ')' {
      assert i == 0 || IsGroupChar(t[i]);
    }
    SplitAfter(t[..j], ')', t[j + 1..]);
  }

  /** Every alternative is a non-empty-or-empty run of letters and `$`; in particular `part.strip()` is `part`. */
  lemma AlternativesAreNames(t: string)
    requires MatchesAlternation(t)
    ensures forall p :: p in Alternatives(t) ==> '|' !in p && forall x :: x in p ==> IsGroupChar(x)
  {
    InteriorIsGroupText(t);
    var parts := Alternatives(t);
    forall p | p in parts ensures '|' !in p && forall x :: x in p ==> IsGroupChar(x) {
      var i :| 0 <= i < |parts| && parts[i] == p;
      SplitPiecesFrom(Interior(t), '|', i);
      forall x | x in p ensures IsGroupChar(x) {
        var k :| 0 <= k < |t[1..GroupEnd(t)]| && t[1..GroupEnd(t)][k] == x;
        assert t[1..GroupEnd(t)][k] == t[k + 1];
      }
    }
  }

  /** The non-empty parts, in order. */
  function NonEmpty(parts: seq<string>): (r: seq<string>)
    ensures |r| <= |parts|
    ensures forall x :: x in r ==> x != "" && x in parts
    ensures forall i :: 0 <= i < |parts| && parts[i] != "" ==> parts[i] in r
  {
    if parts == [] then []
    else
      var last := parts[|parts| - 1];
      NonEmpty(parts[..|parts| - 1]) + (if |last| > 0 then [last] else [])
  }

  lemma {:induction false} NonEmptyKeepsAll(parts: seq<string>)
    requires forall i :: 0 <= i < |parts| ==> parts[i] != ""
    ensures NonEmpty(parts) == parts
  {
    if parts != [] {
      NonEmptyKeepsAll(parts[..|parts| - 1]);
      assert parts[..|parts| - 1] + [parts[|parts| - 1]] == parts;
    }
  }

  /** Each name followed by the common suffix, in order. */
  function WithSuffix(names: seq<string>, suffix: string): (r: seq<string>)
    ensures |r| == |names|
    ensures forall i :: 0 <= i < |names| ==> r[i] == names[i] + suffix
  {
    if names == [] then []
    else WithSuffix(names[..|names| - 1], suffix) + [names[|names| - 1] + suffix]
  }

  lemma NonEmptyStep(parts: seq<string>, i: nat)
    requires i < |parts|
    ensures NonEmpty(parts[..i + 1]) == NonEmpty(parts[..i]) + (if |parts[i]| > 0 then [parts[i]] else [])
  {
    assert parts[..i + 1][..i] == parts[..i];
  }

  lemma WithSuffixStep(names: seq<string>, name: string, suffix: string)
    ensures WithSuffix(names + [name], suffix) == WithSuffix(names, suffix) + [name + suffix]
  {
    assert (names + [name])[..|names|] == names;
  }

  /** The expansion that `break_up_compound_extractors` computes. */
  function Expand(extractor: string): seq<string>
  {
    var t := Remove(extractor, ' ');
    if MatchesAlternation(t) then WithSuffix(NonEmpty(Alternatives(t)), Rest(t))
    else if StartsWith(Lower(extractor), "new ") then []
    else [extractor]
  }

  /** `break_up_compound_extractors`. */
  method BreakUpCompoundExtractors(extractor: string) returns (extractors: seq<string>)
    ensures extractors == Expand(extractor)
  {
    var withoutSpaces := Remove(extractor, ' ');
    if MatchesAlternation(withoutSpaces) {
      extractors := SuffixAlternatives(Alternatives(withoutSpaces), Rest(withoutSpaces));
    } else if !StartsWith(Lower(extractor), "new ") {
      extractors := [extractor];
    } else {
      extractors := [];
    }
  }

  /** The loop over the alternatives: each non-empty one, followed by the suffix, in order. */
  method SuffixAlternatives(parts: seq<string>, rest: string) returns (extractors: seq<string>)
    ensures extractors == WithSuffix(NonEmpty(parts), rest)
  {
    extractors := [];
    for i := 0 to |parts|
      invariant extractors == WithSuffix(NonEmpty(parts[..i]), rest)
    {
      NonEmptyStep(parts, i);
      // the parts hold only letters, `$` and `|`, so `part.strip()` is `part`
      if |parts[i]| > 0 {
        WithSuffixStep(NonEmpty(parts[..i]), parts[i], rest);
        extractors := extractors + [parts[i] + rest];
      }
    }
    assert parts[..|parts|] == parts;
  }


  /**
   * Matching branch: one expression per non-empty alternative, in order, each a
   * run of letters and `$` followed by the text between the first and second `)`.
   */
  lemma ExpandMatching(extractor: string)
    requires MatchesAlternation(Remove(extractor, ' '))
    ensures var t := Remove(extractor, ' ');
      var names := NonEmpty(Alternatives(t));
      |Expand(extractor)| == |names| &&
      (forall i :: 0 <= i < |names| ==> Expand(extractor)[i] == names[i] + Rest(t)) &&
      (forall p :: p in names <==> p in Alternatives(t) && p != "") &&
      (forall p :: p in names ==> forall x :: x in p ==> IsGroupChar(x) && x != '|')
  {
    AlternativesAreNames(Remove(extractor, ' '));
  }

  /**
   * Any other expression yields at most itself, unchanged and with its spaces:
   * nothing when it starts with `new ` in any casing.
   */
  lemma ExpandNotMatching(extractor: string)
    requires !MatchesAlternation(Remove(extractor, ' '))
    ensures |Expand(extractor)| <= 1
    ensures Expand(extractor) == [] <==> StartsWith(Lower(extractor), "new ")
    ensures Expand(extractor) != [] ==> Expand(extractor)[0] == extractor
  {
  }

  /** When the shared suffix has no `|`, no expanded expression has one either. */
  lemma ExpandRemovesPipes(extractor: string)
    requires MatchesAlternation(Remove(extractor, ' '))
    requires '|' !in Rest(Remove(extractor, ' '))
    ensures forall x :: x in Expand(extractor) ==> '|' !in x
  {
    var t := Remove(extractor, ' ');
    AlternativesAreNames(t);
    var names := NonEmpty(Alternatives(t));
    forall x | x in Expand(extractor) ensures '|' !in x {
      var i :| 0 <= i < |names| && Expand(extractor)[i] == x;
      assert x == names[i] + Rest(t);
      assert names[i] in Alternatives(t);
    }
  }

  /** A name of the alternation group: letters and `$`, no `|`. */
  predicate IsName(p: string)
  {
    forall k :: 0 <= k < |p| ==> IsGroupChar(p[k]) && p[k] != '|'
  }

  lemma {:induction false} JoinedNamesAreGroupText(names: seq<string>)
    requires forall i :: 0 <= i < |names| ==> IsName(names[i])
    ensures forall k :: 0 <= k < |Join(names, "|")| ==> IsGroupChar(Join(names, "|")[k])
  {
    if |names| > 1 {
      JoinedNamesAreGroupText(names[1..]);
      var rest := Join(names[1..], "|");
      assert Join(names, "|") == names[0] + "|" + rest;
      forall k | 0 <= k < |Join(names, "|")| ensures IsGroupChar(Join(names, "|")[k]) {
        if k < |names[0]| {
          assert Join(names, "|")[k] == names[0][k];
        } else if k > |names[0]| {
          assert Join(names, "|")[k] == rest[k - |names[0]| - 1];
        }
      }
    } else if |names| == 1 {
      assert IsName(names[0]);
    }
  }

  /** How `(` + inner + `)` + after is laid out. */
  lemma GroupLayout(inner: string, after: string)
    ensures var t := "(" + inner + ")" + after;
      |t| == |inner| + 2 + |after| && t[0] == '(' && t[1..|inner| + 1] == inner &&
      t[|inner| + 1] == ')' && t[|inner| + 2..] == after
  {
    var t := "(" + inner + ")" + after;
    assert t == ("(" + inner) + (")" + after);
    assert ("(" + inner)[1..] == inner;
  }

  /** A group of names followed by `.`: the pattern matches, the group is `inner`, the suffix is cut at the next `)`. */
  lemma GroupMatches(inner: string, suffix: string, tail: string)
    requires inner != "" && forall k :: 0 <= k < |inner| ==> IsGroupChar(inner[k])
    requires StartsWith(suffix, ".") && ')' !in suffix
    requires tail == [] || tail[0] == ')'
    ensures var t := "(" + inner + ")" + (suffix + tail);
      MatchesAlternation(t) && Interior(t) == inner && Rest(t) == suffix
  {
    var after := suffix + tail;
    var t := "(" + inner + ")" + after;
    var j := |inner| + 1;
    GroupLayout(inner, after);
    assert PatternEndsAt(t, j) by {
      forall i | 1 <= i < j ensures IsGroupChar(t[i]) {
        assert t[i] == t[1..j][i - 1];
      }
      assert t[j + 1] == after[0] == suffix[0];
    }
    MatchesAlternationIff(t);
    InteriorIsGroupText(t);
    RestIsUpToSecondParen(t);
    assert after[..|suffix|] == suffix;
    assert Find(after, ')') == |suffix| by {
      assert |suffix| == |after| || after[|suffix|] == ')';
    }
  }

  /** No space in a group of names followed by a space-free suffix. */
  lemma GroupHasNoSpace(inner: string, after: string)
    requires forall k :: 0 <= k < |inner| ==> IsGroupChar(inner[k])
    requires ' ' !in after
    ensures ' ' !in "(" + inner + ")" + after
  {
    var t := "(" + inner + ")" + after;
    GroupLayout(inner, after);
    forall k | 0 <= k < |t| ensures t[k] != ' ' {
      if 1 <= k <= |inner| {
        assert t[k] == t[1..|inner| + 1][k - 1];
      } else if |inner| + 2 <= k {
        assert t[k] == after[k - |inner| - 2];
      }
    }
  }

  /**
   * Round trip: writing alternatives as a group `(a|b|…)` followed by a suffix
   * that starts with `.` and is cut at the next `)`, then expanding, gives back
   * the non-empty alternatives, in order, each followed by the suffix.
   */
  lemma ExpandCompound(e: string, names: seq<string>, suffix: string, tail: string)
    requires e == "(" + Join(names, "|") + ")" + (suffix + tail)
    requires forall i :: 0 <= i < |names| ==> IsName(names[i])
    requires Join(names, "|") != ""
    requires StartsWith(suffix, ".") && ')' !in suffix && ' ' !in suffix
    requires (tail == [] || tail[0] == ')') && ' ' !in tail
    ensures Expand(e) == WithSuffix(NonEmpty(names), suffix)
  {
    var inner := Join(names, "|");
    var t := "(" + inner + ")" + (suffix + tail);
    JoinedNamesAreGroupText(names);
    GroupHasNoSpace(inner, suffix + tail);
    GroupMatches(inner, suffix, tail);
    assert Alternatives(t) == names by {
      forall i | 0 <= i < |names| ensures '|' !in names[i] {
        assert IsName(names[i]);
      }
      JoinSplit(names, '|');
    }
  }

  /** An expression that starts with `new ` in any casing is always dropped, whatever follows. */
  lemma ExpandDropsConstructors(extractor: string)
    requires StartsWith(Lower(extractor), "new ")
    ensures Expand(extractor) == []
  {
    assert Lower(extractor)[0] == 'n';
    assert extractor[0] == 'n' || extractor[0] == 'N';
    var t := Remove(extractor, ' ');
    assert t == [extractor[0]] + Remove(extractor[1..], ' ');
    assert !MatchesAlternation(t);
  }

  /**
   * The suffix is copied as it is, so a `|` after the group survives:
   * `(a|b).c|d` gives `a.c|d` and `b.c|d`.
   */
  lemma PipeInSuffixSurvives(a: string, b: string, suffix: string)
    requires a != "" && b != "" && IsName(a) && IsName(b)
    requires StartsWith(suffix, ".") && ')' !in suffix && ' ' !in suffix
    requires '|' in suffix
    ensures Expand("(" + a + "|" + b + ")" + suffix) == [a + suffix, b + suffix]
    ensures forall x :: x in Expand("(" + a + "|" + b + ")" + suffix) ==> '|' in x
  {
    var names := [a, b];
    assert Join(names, "|") == a + "|" + b by {
      assert names[1..] == [b];
    }
    assert suffix + "" == suffix;
    ExpandCompound("(" + a + "|" + b + ")" + suffix, names, suffix, "");
    NonEmptyKeepsAll(names);
    assert '|' in a + suffix && '|' in b + suffix;
  }
}
