/**
 * `get_all_func_extractors`: walks the signature documents in order and
 * collects, per canonical library name, the list of JavaScript expressions
 * whose value is the library's version, each compound extractor broken up.
 */
module Normalizer {
  import opened Wrappers
  import opened Text
  import opened DenyList
  import opened Splitter
  import opened ExtractorMaps

  /** The `bowername` field: one alternative name, or a list of them of which the first is used. */
  datatype Alias = Scalar(name: string) | List(names: seq<string>)

  /**
   * What the compiler reads of one library's descriptor. `func` is `None`
   * when the descriptor has no `extractors` object or that object has no
   * `func` list; every other field is ignored.
   */
  datatype Descriptor = Descriptor(bowername: Option<Alias>, func: Option<seq<string>>)

  /** One top-level `key: value` pair of a signature document, in the document's order. */
  type Entry = (string, Descriptor)

  type Document = seq<Entry>

  /** Indexing an empty `bowername` list raises, and the exception ends the whole compilation. */
  datatype Error = IndexError

  /** The name an entry's extractors are filed under; `None` when the `bowername` list is empty. */
  function CanonicalName(key: string, d: Descriptor): (r: Option<string>)
    ensures d.bowername.None? ==> r == Some(key)
    ensures d.bowername.Some? && d.bowername.value.Scalar? ==> r == Some(d.bowername.value.name)
    ensures d.bowername.Some? && d.bowername.value.List? ==>
      (r.None? <==> d.bowername.value.names == []) &&
      (r.Some? ==> r.value == d.bowername.value.names[0] && r.value in d.bowername.value.names)
  {
    match d.bowername
    case None => Some(key)
    case Some(Scalar(name)) => Some(name)
    case Some(List(names)) => if |names| == 0 then None else Some(names[0])
  }

  /** The broken-up extractors of a `func` list, in order. */
  function ExpandAll(fs: seq<string>): seq<string>
  {
    if fs == [] then [] else ExpandAll(fs[..|fs| - 1]) + Expand(fs[|fs| - 1])
  }

  /** One turn of the `func` loop: touch the library's key, then append the pieces of one extractor. */
  function AddExtractor(m: ExtractorMap, name: string, extractor: string): ExtractorMap
  {
    AppendAll(Touch(m, name), name, Expand(extractor))
  }

  /** The whole `func` loop of one entry. */
  function AddFuncs(m: ExtractorMap, name: string, fs: seq<string>): ExtractorMap
  {
    if fs == [] then m else AddExtractor(AddFuncs(m, name, fs[..|fs| - 1]), name, fs[|fs| - 1])
  }

  /** One turn of the entry loop. */
  function Step(m: ExtractorMap, e: Entry): Result<ExtractorMap, Error>
  {
    if IsInLibraryNameBlacklist(e.0) then Ok(m)
    else match CanonicalName(e.0, e.1)
      case None => Err(IndexError)
      case Some(name) => Ok(if e.1.func.Some? then AddFuncs(m, name, e.1.func.value) else m)
  }

  /** The entry loop over `es`, starting from `m0`; the first error ends it. */
  function RunFrom(m0: ExtractorMap, es: seq<Entry>): Result<ExtractorMap, Error>
  {
    if es == [] then Ok(m0)
    else match RunFrom(m0, es[..|es| - 1])
      case Err(err) => Err(err)
      case Ok(m) => Step(m, es[|es| - 1])
  }

  /** What `get_all_func_extractors` returns (or raises) for a list of documents. */
  function Normalize(docs: seq<Document>): Result<ExtractorMap, Error>
  {
    RunFrom([], Flatten(docs))
  }

  method GetAllFuncExtractors(docs: seq<Document>) returns (result: Result<ExtractorMap, Error>)
    ensures result == Normalize(docs)
  {
    var extractorMap: ExtractorMap := [];
    for i := 0 to |docs|
      invariant RunFrom([], Flatten(docs[..i])) == Ok(extractorMap)
    {
      var doc := docs[i];
      ghost var before := Flatten(docs[..i]);
      assert before + doc[..0] == before;
      for j := 0 to |doc|
        invariant RunFrom([], before + doc[..j]) == Ok(extractorMap)
      {
        var (key, value) := doc[j];
        ghost var seen := before + doc[..j];
        assert before + doc[..j + 1] == seen + [doc[j]];
        RunSnoc([], seen, doc[j]);
        if IsInLibraryNameBlacklist(key) {
          continue;
        }
        var libraryName := CanonicalName(key, value);
        if libraryName.None? {
          result := Err(IndexError);
          RunErrSticks([], seen + [doc[j]], doc[j + 1..] + Flatten(docs[i + 1..]));
          FlattenAt(docs, i, j);
          return;
        }
        if value.func.Some? {
          extractorMap := AddFuncExtractors(extractorMap, libraryName.value, value.func.value);
        }
      }
      assert doc[..|doc|] == doc;
      FlattenSnoc(docs, i);
    }
    assert docs[..|docs|] == docs;
    result := Ok(extractorMap);
  }

  /** The loop over one entry's `func` list: each extractor, broken up, goes under `name`. */
  method AddFuncExtractors(m0: ExtractorMap, name: string, fs: seq<string>) returns (extractorMap: ExtractorMap)
    ensures extractorMap == AddFuncs(m0, name, fs)
  {
    extractorMap := m0;
    for k := 0 to |fs|
      invariant extractorMap == AddFuncs(m0, name, fs[..k])
    {
      AddFuncsSnoc(m0, name, fs, k);
      var extractor := fs[k];
      if !HasKey(extractorMap, name) {
        extractorMap := extractorMap + [(name, [])];
      }
      ghost var touched := extractorMap;
      var brokenUp := BreakUpCompoundExtractors(extractor);
      for l := 0 to |brokenUp|
        invariant extractorMap == AppendAll(touched, name, brokenUp[..l])
      {
        AppendAllSnoc(touched, name, brokenUp, l);
        extractorMap := AppendTo(extractorMap, name, brokenUp[l]);
      }
      AppendAllWhole(touched, name, brokenUp);
    }
    assert fs[..|fs|] == fs;
  }

  lemma AddFuncsSnoc(m0: ExtractorMap, name: string, fs: seq<string>, k: nat)
    requires k < |fs|
    ensures AddFuncs(m0, name, fs[..k + 1]) == AddExtractor(AddFuncs(m0, name, fs[..k]), name, fs[k])
  {
    assert fs[..k + 1][..k] == fs[..k];
  }

  lemma AppendAllSnoc(m: ExtractorMap, name: string, xs: seq<string>, l: nat)
    requires l < |xs|
    ensures AppendAll(m, name, xs[..l + 1]) == AppendTo(AppendAll(m, name, xs[..l]), name, xs[l])
  {
    assert xs[..l + 1][..l] == xs[..l];
  }

  lemma AppendAllWhole(m: ExtractorMap, name: string, xs: seq<string>)
    ensures AppendAll(m, name, xs[..|xs|]) == AppendAll(m, name, xs)
  {
    assert xs[..|xs|] == xs;
  }

  /** One more entry is one more step. */
  lemma RunSnoc(m0: ExtractorMap, es: seq<Entry>, e: Entry)
    ensures RunFrom(m0, es + [e]) == match RunFrom(m0, es) case Err(err) => Err(err) case Ok(m) => Step(m, e)
  {
    assert (es + [e])[..|es|] == es;
  }

  lemma FlattenSnoc<T>(xss: seq<seq<T>>, i: nat)
    requires i < |xss|
    ensures Flatten(xss[..i + 1]) == Flatten(xss[..i]) + xss[i]
  {
    assert xss[..i + 1] == xss[..i] + [xss[i]];
    FlattenPush(xss[..i], xss[i]);
  }

  /** Once the loop has failed, later entries change nothing. */
  lemma {:induction false} RunErrSticks(m0: ExtractorMap, a: seq<Entry>, b: seq<Entry>)
    requires RunFrom(m0, a).Err?
    ensures RunFrom(m0, a + b) == RunFrom(m0, a)
  {
    if b != [] {
      var ab := a + b;
      assert ab[..|ab| - 1] == a + b[..|b| - 1];
      RunErrSticks(m0, a, b[..|b| - 1]);
    } else {
      assert a + b == a;
    }
  }

  /** The entries of all documents, cut after the `j`th entry of document `i`. */
  lemma FlattenAt(docs: seq<Document>, i: nat, j: nat)
    requires i < |docs| && j < |docs[i]|
    ensures Flatten(docs) == (Flatten(docs[..i]) + docs[i][..j] + [docs[i][j]]) + (docs[i][j + 1..] + Flatten(docs[i + 1..]))
  {
    var doc := docs[i];
    assert docs == docs[..i] + docs[i..];
    FlattenAppend(docs[..i], docs[i..]);
    assert Flatten(docs[i..]) == doc + Flatten(docs[i + 1..]) by {
      assert docs[i..][1..] == docs[i + 1..];
    }
    assert doc == doc[..j] + [doc[j]] + doc[j + 1..];
  }

  // ---------------------------------------------------------------------
  // What the returned map holds, stated entry by entry.

  /** `[n]` when the entry files a non-empty `func` list under `n`, else `[]`. */
  function FedName(e: Entry): seq<string>
  {
    if IsInLibraryNameBlacklist(e.0) || e.1.func.None? || |e.1.func.value| == 0 then []
    else match CanonicalName(e.0, e.1)
      case None => []
      case Some(name) => [name]
  }

  function FedNames(es: seq<Entry>): seq<string>
  {
    if es == [] then [] else FedNames(es[..|es| - 1]) + FedName(es[|es| - 1])
  }

  /** What an entry adds to the list of library `n`. */
  function Contribution(e: Entry, n: string): seq<string>
  {
    if IsInLibraryNameBlacklist(e.0) || e.1.func.None? || CanonicalName(e.0, e.1) != Some(n) then []
    else ExpandAll(e.1.func.value)
  }

  function Collected(es: seq<Entry>, n: string): seq<string>
  {
    if es == [] then [] else Collected(es[..|es| - 1], n) + Contribution(es[|es| - 1], n)
  }

  /** The entries that raise: not deny-listed, with an empty `bowername` list. */
  predicate Crashes(e: Entry)
  {
    !IsInLibraryNameBlacklist(e.0) && e.1.bowername == Some(List([]))
  }

  predicate Distinct(xs: seq<string>)
  {
    forall i, j :: 0 <= i < j < |xs| ==> xs[i] != xs[j]
  }

  /** The first occurrence of every element, in order. */
  function Dedup(xs: seq<string>): (r: seq<string>)
    ensures Distinct(r)
    ensures forall x :: x in r <==> x in xs
  {
    if xs == [] then []
    else
      var d := Dedup(xs[..|xs| - 1]);
      var x := xs[|xs| - 1];
      assert xs == xs[..|xs| - 1] + [x];
      if x in d then d else d + [x]
  }

  lemma DedupSnoc(xs: seq<string>, x: string)
    ensures Dedup(xs + [x]) == if x in Dedup(xs) then Dedup(xs) else Dedup(xs) + [x]
  {
    assert (xs + [x])[..|xs|] == xs;
  }

  lemma {:induction false} DedupOfDistinct(xs: seq<string>)
    requires Distinct(xs)
    ensures Dedup(xs) == xs
  {
    if xs != [] {
      var init := xs[..|xs| - 1];
      DedupOfDistinct(init);
      assert xs[|xs| - 1] !in init;
      assert init + [xs[|xs| - 1]] == xs;
    }
  }

  /** Later elements never disturb the order of the earlier distinct ones. */
  lemma {:induction false} DedupPrefix(xs: seq<string>, ys: seq<string>)
    ensures Dedup(xs) <= Dedup(xs + ys)
  {
    if ys == [] {
      assert xs + ys == xs;
    } else {
      var init := ys[..|ys| - 1];
      DedupPrefix(xs, init);
      assert xs + ys == (xs + init) + [ys[|ys| - 1]];
      DedupSnoc(xs + init, ys[|ys| - 1]);
    }
  }

  lemma UniqueKeysIffDistinct(m: ExtractorMap)
    ensures UniqueKeys(m) <==> Distinct(Keys(m))
  {
  }

  lemma ExpandAllSnoc(fs: seq<string>)
    requires fs != []
    ensures forall g :: (g + ExpandAll(fs[..|fs| - 1])) + Expand(fs[|fs| - 1]) == g + ExpandAll(fs)
  {
    var init, last := ExpandAll(fs[..|fs| - 1]), Expand(fs[|fs| - 1]);
    assert ExpandAll(fs) == init + last;
    forall g: seq<string> ensures (g + init) + last == g + (init + last) {
      AppendRegroup(g, init, last);
    }
  }

  /** The `func` loop of one entry adds its key when the list is non-empty, and no other key. */
  lemma {:induction false} AddFuncsKeys(m: ExtractorMap, name: string, fs: seq<string>)
    ensures Keys(AddFuncs(m, name, fs)) == if fs == [] then Keys(m) else Keys(Touch(m, name))
    ensures UniqueKeys(m) ==> UniqueKeys(AddFuncs(m, name, fs))
  {
    if fs != [] {
      var init, x := fs[..|fs| - 1], fs[|fs| - 1];
      var a := AddFuncs(m, name, init);
      AddFuncsKeys(m, name, init);
      TouchFacts(m, name);
      TouchFacts(a, name);
      AppendAllKeys(Touch(a, name), name, Expand(x));
      if init != [] {
        HasKeyIffInKeys(a, name);
        HasKeyIffInKeys(Touch(m, name), name);
        assert Touch(a, name) == a;
      }
    }
  }

  /** The `func` loop of one entry appends the expansions of its extractors to its key's list, and to no other. */
  lemma {:induction false} AddFuncsGet(m: ExtractorMap, name: string, fs: seq<string>, n: string)
    ensures Get(AddFuncs(m, name, fs), n) == Get(m, n) + (if n == name then ExpandAll(fs) else [])
  {
    if fs == [] {
      assert Get(m, n) + [] == Get(m, n);
    } else {
      var init, x := fs[..|fs| - 1], fs[|fs| - 1];
      var a := AddFuncs(m, name, init);
      AddFuncsGet(m, name, init, n);
      TouchFacts(a, name);
      AppendAllGet(Touch(a, name), name, Expand(x), n);
      if n == name {
        calc {
          Get(AddFuncs(m, name, fs), n);
          Get(a, n) + Expand(x);
          (Get(m, n) + ExpandAll(init)) + Expand(x);
          { ExpandAllSnoc(fs); }
          Get(m, n) + ExpandAll(fs);
        }
      } else {
        assert Get(AddFuncs(m, name, fs), n) == Get(a, n);
      }
    }
  }

  /** One entry fails exactly when it crashes. */
  lemma StepCrash(m: ExtractorMap, e: Entry)
    ensures Step(m, e).Err? <==> Crashes(e)
  {
  }

  /** One entry adds its fed name as a new key, if it has one and it is new. */
  lemma StepKeys(m: ExtractorMap, e: Entry)
    ensures Step(m, e).Ok? ==>
      && Keys(Step(m, e).value) == (if FedName(e) != [] && !HasKey(m, FedName(e)[0]) then Keys(m) + FedName(e) else Keys(m))
      && (UniqueKeys(m) ==> UniqueKeys(Step(m, e).value))
  {
    if !IsInLibraryNameBlacklist(e.0) && e.1.func.Some? {
      match CanonicalName(e.0, e.1)
      case None =>
      case Some(name) =>
        var fs := e.1.func.value;
        assert Step(m, e) == Ok(AddFuncs(m, name, fs));
        assert FedName(e) == if fs == [] then [] else [name];
        AddFuncsKeys(m, name, fs);
        TouchFacts(m, name);
    }
  }

  /** One entry extends the list of `n` by its contribution. */
  lemma StepGet(m: ExtractorMap, e: Entry, n: string)
    ensures Step(m, e).Ok? ==> Get(Step(m, e).value, n) == Get(m, n) + Contribution(e, n)
  {
    if !IsInLibraryNameBlacklist(e.0) && e.1.func.Some? {
      match CanonicalName(e.0, e.1)
      case None =>
      case Some(name) =>
        AddFuncsGet(m, name, e.1.func.value, n);
    } else {
      assert Get(m, n) + [] == Get(m, n);
    }
  }

  lemma CollectedSnoc(es: seq<Entry>, n: string)
    requires es != []
    ensures forall g :: (g + Collected(es[..|es| - 1], n)) + Contribution(es[|es| - 1], n) == g + Collected(es, n)
  {
  }

  lemma FedNamesSnoc(es: seq<Entry>)
    requires es != []
    ensures forall g :: (g + FedNames(es[..|es| - 1])) + FedName(es[|es| - 1]) == g + FedNames(es)
  {
  }

  predicate HasCrash(es: seq<Entry>)
  {
    exists i :: 0 <= i < |es| && Crashes(es[i])
  }

  lemma HasCrashSnoc(es: seq<Entry>)
    requires es != []
    ensures HasCrash(es) <==> HasCrash(es[..|es| - 1]) || Crashes(es[|es| - 1])
  {
    var init := es[..|es| - 1];
    if HasCrash(init) {
      var i :| 0 <= i < |init| && Crashes(init[i]);
      assert es[i] == init[i];
    }
    if HasCrash(es) {
      var i :| 0 <= i < |es| && Crashes(es[i]);
      if i < |init| {
        assert init[i] == es[i];
      }
    }
  }

  /** The loop raises exactly when one of the entries crashes. */
  lemma {:induction false} RunCrash(m0: ExtractorMap, es: seq<Entry>)
    ensures RunFrom(m0, es).Err? <==> HasCrash(es)
  {
    if es != [] {
      var init, e := es[..|es| - 1], es[|es| - 1];
      RunCrash(m0, init);
      HasCrashSnoc(es);
      var r1 := RunFrom(m0, init);
      if r1.Ok? {
        assert RunFrom(m0, es) == Step(r1.value, e);
        StepCrash(r1.value, e);
      } else {
        assert RunFrom(m0, es).Err?;
      }
    }
  }

  /** The keys are the distinct fed names, in order of first appearance, after those already present. */
  lemma {:induction false} RunKeys(m0: ExtractorMap, es: seq<Entry>)
    requires UniqueKeys(m0)
    ensures RunFrom(m0, es).Ok? ==>
      Keys(RunFrom(m0, es).value) == Dedup(Keys(m0) + FedNames(es)) && UniqueKeys(RunFrom(m0, es).value)
  {
    if es == [] {
      UniqueKeysIffDistinct(m0);
      DedupOfDistinct(Keys(m0));
      assert Keys(m0) + FedNames(es) == Keys(m0);
    } else {
      var init, e := es[..|es| - 1], es[|es| - 1];
      RunKeys(m0, init);
      var r1 := RunFrom(m0, init);
      if r1.Ok? {
        var m1 := r1.value;
        assert RunFrom(m0, es) == Step(m1, e);
        StepKeys(m1, e);
        if Step(m1, e).Ok? {
          var m := Step(m1, e).value;
          var ks := Keys(m0) + FedNames(init);
          assert Keys(m1) == Dedup(ks);
          FedNamesSnoc(es);
          assert Keys(m0) + FedNames(es) == ks + FedName(e);
          if FedName(e) == [] {
            assert ks + FedName(e) == ks;
            assert Keys(m) == Keys(m1);
          } else {
            var n := FedName(e)[0];
            assert FedName(e) == [n];
            DedupSnoc(ks, n);
            HasKeyIffInKeys(m1, n);
          }
        }
      }
    }
  }

  /** Each key's list is the concatenation of the entries' contributions, in order. */
  lemma {:induction false} RunGet(m0: ExtractorMap, es: seq<Entry>, n: string)
    ensures RunFrom(m0, es).Ok? ==> Get(RunFrom(m0, es).value, n) == Get(m0, n) + Collected(es, n)
  {
    if es == [] {
      assert Get(m0, n) + [] == Get(m0, n);
    } else {
      var init, e := es[..|es| - 1], es[|es| - 1];
      RunGet(m0, init, n);
      if RunFrom(m0, es).Ok? {
        var m1 := RunFrom(m0, init).value;
        StepGet(m1, e, n);
        calc {
          Get(RunFrom(m0, es).value, n);
          Get(m1, n) + Contribution(e, n);
          (Get(m0, n) + Collected(init, n)) + Contribution(e, n);
          { CollectedSnoc(es, n); }
          Get(m0, n) + Collected(es, n);
        }
      }
    }
  }

  /**
   * `get_all_func_extractors` over a list of documents: it raises exactly
   * when some entry crashes; otherwise the keys are the distinct names that
   * some entry files a non-empty `func` list under, in order of first
   * appearance, and each key's list is the concatenation, in document
   * order, of the broken-up extractors filed under it.
   */
  lemma NormalizeFacts(docs: seq<Document>)
    ensures Normalize(docs).Err? <==> HasCrash(Flatten(docs))
    ensures Normalize(docs).Ok? ==>
      var m := Normalize(docs).value;
      && Keys(m) == Dedup(FedNames(Flatten(docs)))
      && UniqueKeys(m)
      && forall n :: Get(m, n) == Collected(Flatten(docs), n)
  {
    var es := Flatten(docs);
    assert Normalize(docs) == RunFrom([], es);
    RunCrash([], es);
    RunKeys([], es);
    forall n ensures Normalize(docs).Ok? ==> Get(Normalize(docs).value, n) == Collected(es, n) {
      RunGet([], es, n);
      assert Get([], n) + Collected(es, n) == Collected(es, n);
    }
    assert Keys([]) + FedNames(Flatten(docs)) == FedNames(Flatten(docs));
  }

  /** Running over `a + b` is running over `a`, then over `b` from where `a` left off. */
  lemma {:induction false} RunAppend(m0: ExtractorMap, a: seq<Entry>, b: seq<Entry>)
    ensures RunFrom(m0, a + b) == match RunFrom(m0, a) case Err(err) => Err(err) case Ok(m) => RunFrom(m, b)
  {
    if b == [] {
      assert a + b == a;
    } else {
      var init, e := b[..|b| - 1], b[|b| - 1];
      RunAppend(m0, a, init);
      assert a + b == (a + init) + [e];
      RunSnoc(m0, a + init, e);
    }
  }

  /**
   * Compiling one more document keeps every key of the earlier ones in its
   * place and appends that document's contributions at the end of each list.
   */
  lemma LaterDocumentExtends(docs: seq<Document>, d: Document)
    requires Normalize(docs + [d]).Ok?
    ensures Normalize(docs).Ok?
    ensures Keys(Normalize(docs).value) <= Keys(Normalize(docs + [d]).value)
    ensures forall n :: Get(Normalize(docs + [d]).value, n) == Get(Normalize(docs).value, n) + Collected(d, n)
  {
    var es := Flatten(docs);
    FlattenAppend(docs, [d]);
    assert Flatten([d]) == d + Flatten([d][1..]);
    assert [d][1..] == [];
    assert Flatten(docs + [d]) == es + d;
    RunAppend([], es, d);
    var m1 := RunFrom([], es).value;
    var m := RunFrom(m1, d).value;
    RunKeys([], es);
    RunKeys(m1, d);
    DedupPrefix(Keys(m1), FedNames(d));
    UniqueKeysIffDistinct(m1);
    DedupOfDistinct(Keys(m1));
    forall n ensures Get(m, n) == Get(m1, n) + Collected(d, n) {
      RunGet(m1, d, n);
    }
  }

  /** A map whose only key is `k` is the one pair `k` to its list. */
  lemma SingleKey(m: ExtractorMap, k: string)
    requires Keys(m) == [k]
    ensures m == [(k, Get(m, k))]
  {
    assert m[0].0 == k;
    assert HasKey(m, k);
  }

  /**
   * A single entry, end to end: a deny-listed key is skipped before its
   * `bowername` is looked at; otherwise an empty `bowername` list raises;
   * otherwise a non-empty `func` list is filed under the canonical name,
   * whatever that name is, and an absent or empty one files nothing.
   */
  lemma SingleEntry(key: string, d: Descriptor)
    ensures IsInLibraryNameBlacklist(key) ==> Normalize([[(key, d)]]) == Ok([])
    ensures !IsInLibraryNameBlacklist(key) && d.bowername == Some(List([])) ==> Normalize([[(key, d)]]) == Err(IndexError)
    ensures !IsInLibraryNameBlacklist(key) && d.bowername != Some(List([])) && (d.func.None? || d.func.value == []) ==>
      Normalize([[(key, d)]]) == Ok([])
    ensures !IsInLibraryNameBlacklist(key) && d.bowername != Some(List([])) && d.func.Some? && d.func.value != [] ==>
      Normalize([[(key, d)]]) == Ok([(CanonicalName(key, d).value, ExpandAll(d.func.value))])
  {
    var e := (key, d);
    assert Flatten([[e]]) == [e] + Flatten([[e]][1..]);
    assert [[e]][1..] == [];
    assert [e] + [] == [e];
    RunSnoc([], [], e);
    assert [] + [e] == [e];
    assert Normalize([[e]]) == Step([], e);
    if !IsInLibraryNameBlacklist(key) && d.bowername != Some(List([])) && d.func.Some? && d.func.value != [] {
      var name, fs := CanonicalName(key, d).value, d.func.value;
      var m := AddFuncs([], name, fs);
      assert Step([], e) == Ok(m);
      AddFuncsKeys([], name, fs);
      TouchFacts([], name);
      assert Keys(m) == [name] by {
        assert Keys([]) + [name] == [name];
      }
      AddFuncsGet([], name, fs, name);
      assert Get(m, name) == ExpandAll(fs) by {
        assert [] + ExpandAll(fs) == ExpandAll(fs);
      }
      SingleKey(m, name);
    }
  }

  /**
   * The deny-list is applied to the raw key only: an entry whose `bowername`
   * is the deny-listed name is filed under it like any other.
   */
  lemma AliasIsNotDenied(key: string, fs: seq<string>)
    requires !IsInLibraryNameBlacklist(key) && fs != []
    ensures Normalize([[(key, Descriptor(Some(Scalar(DeniedName)), Some(fs)))]]) == Ok([(DeniedName, ExpandAll(fs))])
  {
    SingleEntry(key, Descriptor(Some(Scalar(DeniedName)), Some(fs)));
  }

  lemma {:induction false} ExpandAllDropsConstructors(fs: seq<string>)
    requires forall k :: 0 <= k < |fs| ==> StartsWith(Lower(fs[k]), "new ")
    ensures ExpandAll(fs) == []
  {
    if fs != [] {
      ExpandAllDropsConstructors(fs[..|fs| - 1]);
      ExpandDropsConstructors(fs[|fs| - 1]);
    }
  }

  /**
   * The key is created before the extractors are broken up, so a library
   * whose every extractor is dropped still gets an entry, with an empty list.
   */
  lemma EmptyEntryKept(key: string, fs: seq<string>)
    requires !IsInLibraryNameBlacklist(key) && fs != []
    requires forall k :: 0 <= k < |fs| ==> StartsWith(Lower(fs[k]), "new ")
    ensures Normalize([[(key, Descriptor(None, Some(fs)))]]) == Ok([(key, [])])
  {
    SingleEntry(key, Descriptor(None, Some(fs)));
    ExpandAllDropsConstructors(fs);
  }
}
