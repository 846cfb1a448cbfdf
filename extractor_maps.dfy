/**
 * The extractor map that `get_all_func_extractors` builds: a Python dict from
 * library name to a list of expressions. Python dicts iterate in insertion
 * order, and that order decides the order of the generated script, so the map
 * is an association list whose keys are kept in the order they were added.
 */
module ExtractorMaps {
  import opened Text

  type ExtractorMap = seq<(string, seq<string>)>

  /** The keys, in insertion order. */
  function Keys(m: ExtractorMap): (ks: seq<string>)
    ensures |ks| == |m|
    ensures forall i :: 0 <= i < |m| ==> ks[i] == m[i].0
  {
    if m == [] then [] else Keys(m[..|m| - 1]) + [m[|m| - 1].0]
  }

  /** A dict never holds a key twice. */
  predicate UniqueKeys(m: ExtractorMap)
  {
    forall i, j :: 0 <= i < j < |m| ==> m[i].0 != m[j].0
  }

  /** Position of `k`, or `|m|` when `k` is not a key. */
  function IndexOf(m: ExtractorMap, k: string): (i: nat)
    ensures i <= |m|
    ensures i < |m| ==> m[i].0 == k
    ensures forall j :: 0 <= j < i ==> m[j].0 != k
  {
    if m == [] then 0 else if m[0].0 == k then 0 else 1 + IndexOf(m[1..], k)
  }

  /** `k in m`. */
  predicate HasKey(m: ExtractorMap, k: string)
  {
    IndexOf(m, k) < |m|
  }

  lemma HasKeyIffInKeys(m: ExtractorMap, k: string)
    ensures HasKey(m, k) <==> k in Keys(m)
  {
    if k in Keys(m) {
      var i :| 0 <= i < |m| && Keys(m)[i] == k;
      assert m[i].0 == k;
    }
  }

  /** The list stored under `k`; an absent key reads as the empty list. */
  function Get(m: ExtractorMap, k: string): seq<string>
  {
    if HasKey(m, k) then m[IndexOf(m, k)].1 else []
  }

  /** With unique keys, each entry is what its key reads. */
  lemma GetAt(m: ExtractorMap, i: nat)
    requires UniqueKeys(m) && i < |m|
    ensures HasKey(m, m[i].0) && IndexOf(m, m[i].0) == i && Get(m, m[i].0) == m[i].1
  {
  }

  /** `if k not in m: m[k] = []`. */
  function Touch(m: ExtractorMap, k: string): ExtractorMap
  {
    if HasKey(m, k) then m else m + [(k, [])]
  }

  /** `m[k].append(x)`; the map is left alone when `k` is absent (the caller always touches `k` first). */
  function AppendTo(m: ExtractorMap, k: string, x: string): ExtractorMap
  {
    if HasKey(m, k) then m[IndexOf(m, k) := (k, m[IndexOf(m, k)].1 + [x])] else m
  }

  /** `m[k].append(x)` for each `x` of `xs`, in order. */
  function AppendAll(m: ExtractorMap, k: string, xs: seq<string>): ExtractorMap
  {
    if xs == [] then m else AppendTo(AppendAll(m, k, xs[..|xs| - 1]), k, xs[|xs| - 1])
  }

  /** Two maps with the same keys at the same places find every key at the same place. */
  lemma {:induction false} SameKeysSameIndex(m1: ExtractorMap, m2: ExtractorMap, k: string)
    requires |m1| == |m2|
    requires forall i :: 0 <= i < |m1| ==> m1[i].0 == m2[i].0
    ensures IndexOf(m1, k) == IndexOf(m2, k)
  {
    if m1 != [] && m1[0].0 != k {
      SameKeysSameIndex(m1[1..], m2[1..], k);
    }
  }

  /** Entries added at the end do not move the keys already present. */
  lemma {:induction false} IndexOfAppend(m: ExtractorMap, extra: ExtractorMap, n: string)
    ensures IndexOf(m + extra, n) == if HasKey(m, n) then IndexOf(m, n) else |m| + IndexOf(extra, n)
  {
    if m == [] {
      assert m + extra == extra;
    } else if m[0].0 != n {
      assert (m + extra)[1..] == m[1..] + extra;
      IndexOfAppend(m[1..], extra, n);
    }
  }

  /** Adding an absent key puts it last and leaves every other key where it was. */
  lemma IndexOfAfterAdd(m: ExtractorMap, k: string, n: string)
    requires !HasKey(m, k)
    ensures IndexOf(m + [(k, [])], n) == if HasKey(m, n) then IndexOf(m, n) else if n == k then |m| else |m| + 1
  {
    IndexOfAppend(m, [(k, [])], n);
  }

  /** `Touch` makes `k` a key, adds it last if it was new, and changes no list. */
  lemma TouchFacts(m: ExtractorMap, k: string)
    ensures HasKey(Touch(m, k), k)
    ensures Keys(Touch(m, k)) == if HasKey(m, k) then Keys(m) else Keys(m) + [k]
    ensures forall n :: Get(Touch(m, k), n) == Get(m, n)
    ensures UniqueKeys(m) ==> UniqueKeys(Touch(m, k))
  {
    if !HasKey(m, k) {
      var m' := m + [(k, [])];
      IndexOfAfterAdd(m, k, k);
      forall n ensures Get(m', n) == Get(m, n) {
        IndexOfAfterAdd(m, k, n);
      }
      assert m'[..|m|] == m;
      if UniqueKeys(m) {
        forall i | 0 <= i < |m| ensures m[i].0 != k {
        }
      }
    }
  }

  /** `AppendTo` adds `x` at the end of `k`'s list, keeps the keys, and touches no other list. */
  lemma AppendToFacts(m: ExtractorMap, k: string, x: string)
    requires HasKey(m, k)
    ensures Keys(AppendTo(m, k, x)) == Keys(m)
    ensures forall n :: HasKey(AppendTo(m, k, x), n) <==> HasKey(m, n)
    ensures forall n :: Get(AppendTo(m, k, x), n) == Get(m, n) + (if n == k then [x] else [])
    ensures UniqueKeys(m) ==> UniqueKeys(AppendTo(m, k, x))
  {
    var m' := AppendTo(m, k, x);
    forall n ensures IndexOf(m', n) == IndexOf(m, n) {
      SameKeysSameIndex(m', m, n);
    }
  }

  /** `AppendAll` keeps the keys. */
  lemma {:induction false} AppendAllKeys(m: ExtractorMap, k: string, xs: seq<string>)
    requires HasKey(m, k)
    ensures Keys(AppendAll(m, k, xs)) == Keys(m)
    ensures forall n :: HasKey(AppendAll(m, k, xs), n) <==> HasKey(m, n)
    ensures UniqueKeys(m) ==> UniqueKeys(AppendAll(m, k, xs))
  {
    if xs != [] {
      var init := xs[..|xs| - 1];
      AppendAllKeys(m, k, init);
      AppendToFacts(AppendAll(m, k, init), k, xs[|xs| - 1]);
    }
  }

  /** `AppendAll` extends `k`'s list by `xs` and no other list. */
  lemma {:induction false} AppendAllGet(m: ExtractorMap, k: string, xs: seq<string>, n: string)
    requires HasKey(m, k)
    ensures Get(AppendAll(m, k, xs), n) == Get(m, n) + (if n == k then xs else [])
  {
    if xs == [] {
      assert Get(m, n) + [] == Get(m, n);
    } else {
      var init, x := xs[..|xs| - 1], xs[|xs| - 1];
      var a := AppendAll(m, k, init);
      AppendAllKeys(m, k, init);
      AppendAllGet(m, k, init, n);
      AppendToFacts(a, k, x);
      if n == k {
        calc {
          Get(AppendTo(a, k, x), n);
          Get(a, n) + [x];
          (Get(m, n) + init) + [x];
          { AppendSnoc(Get(m, n), xs); }
          Get(m, n) + xs;
        }
      }
    }
  }
}
