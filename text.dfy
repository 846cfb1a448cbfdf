/**
 * The few Python string operations the compiler relies on, written out over
 * `seq<char>`: ASCII `lower`, `startswith`/`endswith`, `replace` of a single
 * character by nothing, `split` on a single character, `sep.join`, and
 * `replace(pat, repl, 1)` (first occurrence only).
 */
module Text {
  import opened Wrappers

  /** Python's `str.lower` restricted to ASCII: only 'A'..'Z' change. */
  function LowerChar(c: char): char
  {
    if 'A' <= c <= 'Z' then (c as int + 32) as char else c
  }

  /** The inverse direction, for stating what `lower` identifies: only 'a'..'z' change. */
  function UpperChar(c: char): char
  {
    if 'a' <= c <= 'z' then (c as int - 32) as char else c
  }

  /** `str.lower` on ASCII. */
  function Lower(s: string): (r: string)
    ensures |r| == |s|
  {
    seq(|s|, i requires 0 <= i < |s| => LowerChar(s[i]))
  }

  /**
   * What `lower` does to each character: no upper-case letter is left, every
   * other character is kept, and each upper-case letter becomes the
   * lower-case letter whose upper-case form it is.
   */
  lemma LowerFacts(s: string)
    ensures forall i :: 0 <= i < |s| ==> !('A' <= Lower(s)[i] <= 'Z')
    ensures forall i :: 0 <= i < |s| && !('A' <= s[i] <= 'Z') ==> Lower(s)[i] == s[i]
    ensures forall i :: 0 <= i < |s| && 'A' <= s[i] <= 'Z' ==>
      'a' <= Lower(s)[i] <= 'z' && UpperChar(Lower(s)[i]) == s[i]
  {
  }

  /** Lower-casing twice is lower-casing once. */
  lemma LowerIdempotent(s: string)
    ensures Lower(Lower(s)) == Lower(s)
  {
    LowerFacts(s);
    LowerFacts(Lower(s));
  }

  predicate StartsWith(s: string, prefix: string)
  {
    |prefix| <= |s| && s[..|prefix|] == prefix
  }

  predicate EndsWith(s: string, suffix: string)
  {
    |suffix| <= |s| && s[|s| - |suffix|..] == suffix
  }

  /** `s.replace(c, '')`: every occurrence of `c` removed, the rest kept in order. */
  function Remove(s: string, c: char): (r: string)
    ensures c !in r
    ensures |r| <= |s|
    ensures c !in s ==> r == s
  {
    if s == [] then [] else (if s[0] == c then [] else [s[0]]) + Remove(s[1..], c)
  }

  lemma {:induction false} RemoveAppend(a: string, b: string, c: char)
    ensures Remove(a + b, c) == Remove(a, c) + Remove(b, c)
  {
    if a == [] {
      assert a + b == b;
    } else {
      var ab := a + b;
      var head: string := if a[0] == c then [] else [a[0]];
      assert ab[0] == a[0];
      assert ab[1..] == a[1..] + b;
      RemoveAppend(a[1..], b, c);
      calc {
        Remove(ab, c);
        head + Remove(ab[1..], c);
        head + (Remove(a[1..], c) + Remove(b, c));
        (head + Remove(a[1..], c)) + Remove(b, c);
      }
    }
  }

  /** Index of the first `c` in `s`, or `|s|` when there is none. */
  function Find(s: string, c: char): (k: nat)
    ensures k <= |s|
    ensures c !in s[..k]
    ensures k < |s| ==> s[k] == c
    ensures k == |s| <==> c !in s
  {
    if s == [] then 0 else if s[0] == c then 0 else 1 + Find(s[1..], c)
  }

  /** Python's `s.split(c)` for a one-character separator: never empty, pieces free of `c`. */
  function Split(s: string, c: char): (parts: seq<string>)
    ensures |parts| >= 1
    ensures forall i :: 0 <= i < |parts| ==> c !in parts[i]
    ensures c in s <==> |parts| >= 2
    ensures parts[0] == s[..Find(s, c)]
    decreases |s|
  {
    var k := Find(s, c);
    if k == |s| then [s] else [s[..k]] + Split(s[k + 1..], c)
  }

  /** Every character of `t` occurs in `s`. */
  predicate CharsWithin(t: string, s: string)
  {
    forall x :: x in t ==> x in s
  }

  /** Python's `sep.join(parts)`. */
  function Join(parts: seq<string>, sep: string): string
  {
    if |parts| == 0 then ""
    else if |parts| == 1 then parts[0]
    else parts[0] + sep + Join(parts[1..], sep)
  }

  /** Splitting on `c` and joining with `c` gives back the string. */
  lemma {:induction false} SplitJoin(s: string, c: char)
    ensures Join(Split(s, c), [c]) == s
    decreases |s|
  {
    var k := Find(s, c);
    if k < |s| {
      var tail := s[k + 1..];
      var parts := Split(s, c);
      SplitJoin(tail, c);
      assert parts == [s[..k]] + Split(tail, c);
      assert parts[0] == s[..k] && parts[1..] == Split(tail, c);
      calc {
        Join(parts, [c]);
        parts[0] + [c] + Join(parts[1..], [c]);
        s[..k] + [c] + Join(Split(tail, c), [c]);
        s[..k] + [c] + tail;
        { assert s == s[..k] + [s[k]] + s[k + 1..]; }
        s;
      }
    } else {
      assert Split(s, c) == [s];
    }
  }

  /** Each part of a join draws its characters from the joined string. */
  lemma {:induction false} JoinPiecesWithin(parts: seq<string>, sep: string, i: nat)
    requires i < |parts|
    ensures CharsWithin(parts[i], Join(parts, sep))
  {
    if |parts| > 1 {
      assert Join(parts, sep) == parts[0] + sep + Join(parts[1..], sep);
      if i > 0 {
        JoinPiecesWithin(parts[1..], sep, i - 1);
        assert parts[1..][i - 1] == parts[i];
      }
    }
  }

  /** Each piece of a split draws its characters from the split string. */
  lemma SplitPiecesFrom(s: string, c: char, i: nat)
    requires i < |Split(s, c)|
    ensures CharsWithin(Split(s, c)[i], s)
  {
    SplitJoin(s, c);
    JoinPiecesWithin(Split(s, c), [c], i);
  }

  /** A separator that does not occur in `a` splits `a + [c] + b` right after `a`. */
  lemma SplitAfter(a: string, c: char, b: string)
    requires c !in a
    ensures Split(a + [c] + b, c) == [a] + Split(b, c)
  {
    var s := a + [c] + b;
    assert s[..|a|] == a;
    assert Find(s, c) == |a| by {
      assert s[|a|] == c;
      forall i | 0 <= i < |a| ensures s[i] != c {
        assert s[i] == a[i];
      }
    }
    assert s[|a| + 1..] == b;
  }

  /** Joining pieces free of `c` with `c` and splitting again gives back the pieces. */
  lemma {:induction false} JoinSplit(parts: seq<string>, c: char)
    requires |parts| >= 1
    requires forall i :: 0 <= i < |parts| ==> c !in parts[i]
    ensures Split(Join(parts, [c]), c) == parts
  {
    if |parts| == 1 {
      assert Join(parts, [c]) == parts[0];
    } else {
      JoinSplit(parts[1..], c);
      assert Join(parts, [c]) == parts[0] + [c] + Join(parts[1..], [c]);
      SplitAfter(parts[0], c, Join(parts[1..], [c]));
      assert parts == [parts[0]] + parts[1..];
    }
  }

  /** Joining one more part adds a separator and the part. */
  lemma {:induction false} JoinSnoc(parts: seq<string>, sep: string, p: string)
    ensures Join(parts + [p], sep) == if parts == [] then p else Join(parts, sep) + sep + p
  {
    if |parts| == 1 {
      assert parts + [p] == [parts[0], p];
    } else if |parts| > 1 {
      var all := parts + [p];
      assert all[1..] == parts[1..] + [p];
      JoinSnoc(parts[1..], sep, p);
      calc {
        Join(all, sep);
        parts[0] + sep + Join(parts[1..] + [p], sep);
        parts[0] + sep + (Join(parts[1..], sep) + sep + p);
        (parts[0] + sep + Join(parts[1..], sep)) + sep + p;
      }
    }
  }

  /** `pat` occurs in `s` starting at index `i`. */
  predicate OccursAt(s: string, pat: string, i: nat)
  {
    i + |pat| <= |s| && s[i..i + |pat|] == pat
  }

  /** Python's `s.find(pat, i)`: the first occurrence of `pat` at or after `i`. */
  function FindFrom(s: string, pat: string, i: nat): (r: Option<nat>)
    requires i <= |s|
    ensures r.Some? ==> i <= r.value && OccursAt(s, pat, r.value)
    ensures r.Some? ==> forall j :: i <= j < r.value ==> !OccursAt(s, pat, j)
    ensures r.None? ==> forall j :: i <= j <= |s| ==> !OccursAt(s, pat, j)
    decreases |s| - i
  {
    if OccursAt(s, pat, i) then Some(i)
    else if i == |s| then None
    else FindFrom(s, pat, i + 1)
  }

  /** Python's `s.replace(pat, repl, 1)`. */
  function ReplaceFirst(s: string, pat: string, repl: string): string
  {
    match FindFrom(s, pat, 0)
    case None => s
    case Some(k) => s[..k] + repl + s[k + |pat|..]
  }

  /** When the first occurrence of `pat` is at `k`, exactly that occurrence is replaced. */
  lemma ReplaceFirstAt(s: string, pat: string, repl: string, k: nat)
    requires OccursAt(s, pat, k)
    requires forall j :: 0 <= j < k ==> !OccursAt(s, pat, j)
    ensures ReplaceFirst(s, pat, repl) == s[..k] + repl + s[k + |pat|..]
  {
    var r := FindFrom(s, pat, 0);
    assert r.Some?;
    assert r.value == k;
  }

  /** Replacing a string by itself changes nothing. */
  lemma ReplaceFirstSelf(s: string, x: string)
    ensures ReplaceFirst(s, x, x) == s
  {
    match FindFrom(s, x, 0)
    case None =>
    case Some(k) =>
      assert s == s[..k] + s[k..k + |x|] + s[k + |x|..];
  }

  function Flatten<T>(xss: seq<seq<T>>): seq<T>
  {
    if xss == [] then [] else xss[0] + Flatten(xss[1..])
  }

  lemma FlattenPush<T>(parts: seq<seq<T>>, p: seq<T>)
    ensures Flatten(parts + [p]) == Flatten(parts) + p
  {
    FlattenAppend(parts, [p]);
    assert Flatten([p]) == p + Flatten([]);
  }

  lemma {:induction false} FlattenAppend<T>(a: seq<seq<T>>, b: seq<seq<T>>)
    ensures Flatten(a + b) == Flatten(a) + Flatten(b)
  {
    if a == [] {
      assert a + b == b;
    } else {
      var ab := a + b;
      assert ab[0] == a[0];
      assert ab[1..] == a[1..] + b;
      FlattenAppend(a[1..], b);
      calc {
        Flatten(ab);
        ab[0] + Flatten(ab[1..]);
        a[0] + (Flatten(a[1..]) + Flatten(b));
        (a[0] + Flatten(a[1..])) + Flatten(b);
      }
    }
  }

  /** Appending a non-empty sequence is appending all but its last element, then that element. */
  lemma AppendSnoc<T>(g: seq<T>, xs: seq<T>)
    requires xs != []
    ensures (g + xs[..|xs| - 1]) + [xs[|xs| - 1]] == g + xs
  {
    assert xs == xs[..|xs| - 1] + [xs[|xs| - 1]];
  }

  // Regrouping concatenations. Each step of the string-building loops appends
  // several pieces at once; these restate the same concatenation with other
  // brackets, so that the loop proofs can name the pieces they reason about.

  lemma HeadRegroup<T>(b: seq<T>, x: seq<T>, y: seq<T>, z: seq<T>, w: seq<T>)
    ensures b + x + y + z + w == b + (x + y + z) + w
  {
  }

  lemma AppendRegroup<T>(a: seq<T>, b: seq<T>, c: seq<T>)
    ensures a + b + c == a + (b + c)
  {
  }

  lemma BlockRegroup<T>(h: seq<T>, b: seq<T>, x: seq<T>, y: seq<T>)
    ensures h + b + x + y == h + (b + (x + y))
  {
  }

  lemma Regroup<T>(o: seq<T>, j: seq<T>, a: seq<T>, t: seq<T>, b: seq<T>, n: seq<T>, z: seq<T>)
    ensures o + (j + a + (t + b + n)) + z == (o + j + a) + t + b + n + z
  {
  }

  lemma RegroupHead<T>(o: seq<T>, t: seq<T>, p: seq<T>, n: seq<T>, m: seq<T>, c: seq<T>)
    ensures o + ((t + p + n) + m) + c == o + t + p + (n + m + c)
  {
  }
}
