/**
 * `make_librevealjs_from_extractors`: writes the libreveal.js script. After
 * a header comment, each library of the extractor map gets a comment line
 * with its name and then one `if` / `else if` branch per extractor: the
 * branch's condition is the extractor's guard, and its body logs the
 * library name and the extractor's value to the console.
 */
module Assembler {
  import opened Text
  import opened ExtractorMaps
  import opened Guard

  const Header: string := "// libreveal.js"

  /** The first extractor of a library opens an `if`, the others continue it with `else if`. */
  function Keyword(first: bool): string
  {
    if first then "if " else "else if "
  }

  /** The text appended for one extractor, from its keyword and its guard. */
  function BranchText(keyword: string, guard: string, name: string, extractor: string): string
  {
    "\n" + keyword + guard + "\n" + "{" + "\n\t" + "console.log(\"libreveal.js: " + name + " @ \" + " + extractor + ");" + "\n" + "}"
  }

  function Branch(name: string, extractor: string, first: bool): string
  {
    BranchText(Keyword(first), GuardOf(extractor), name, extractor)
  }

  /** The branches of one library, in the order of its extractors. */
  function Branches(name: string, extractors: seq<string>): string
  {
    if extractors == [] then ""
    else
      var init := extractors[..|extractors| - 1];
      Branches(name, init) + Branch(name, extractors[|extractors| - 1], init == [])
  }

  /** The comment line that opens a library's part of the script. */
  function BlockHead(name: string): string
  {
    "\n\n" + "// " + name
  }

  function Block(name: string, extractors: seq<string>): string
  {
    BlockHead(name) + Branches(name, extractors)
  }

  /** The libraries' parts, in the map's order. */
  function Blocks(m: ExtractorMap): string
  {
    if m == [] then "" else Blocks(m[..|m| - 1]) + Block(m[|m| - 1].0, m[|m| - 1].1)
  }

  /** The whole libreveal.js script for an extractor map. */
  function Script(m: ExtractorMap): string
  {
    Header + Blocks(m)
  }

  method MakeLibrevealjsFromExtractors(extractorMap: ExtractorMap) returns (script: string)
    ensures script == Script(extractorMap)
  {
    script := "";
    script := script + Header;
    assert script == Header + Blocks(extractorMap[..0]);
    for i := 0 to |extractorMap|
      invariant script == Header + Blocks(extractorMap[..i])
    {
      var (key, value) := extractorMap[i];
      var libraryName := key;
      ghost var before := script;
      script := script + "\n\n";
      script := script + "// ";
      script := script + libraryName;
      ghost var head := script;
      var firstIf := true;
      for j := 0 to |value|
        invariant firstIf == (j == 0)
        invariant script == head + Branches(libraryName, value[..j])
      {
        var extractorFunction := value[j];
        var existenceLogic := GetJsExistenceLogicFromFunction(extractorFunction);
        var keyword: string;
        if firstIf {
          keyword := "if ";
          firstIf := false;
        } else {
          keyword := "else if ";
        }
        // The source appends the line break before computing the guard and
        // the rest after; the text appended is the same.
        BranchStep(head, libraryName, value, j, keyword, existenceLogic);
        script := script + BranchText(keyword, existenceLogic, libraryName, extractorFunction);
      }
      BlockStep(extractorMap, i, before);
    }
    assert extractorMap[..|extractorMap|] == extractorMap;
  }

  /** One turn of the inner loop appends the next branch. */
  lemma BranchStep(head: string, name: string, extractors: seq<string>, j: nat, keyword: string, guard: string)
    requires j < |extractors|
    requires keyword == Keyword(j == 0) && guard == GuardOf(extractors[j])
    ensures head + Branches(name, extractors[..j]) + BranchText(keyword, guard, name, extractors[j])
      == head + Branches(name, extractors[..j + 1])
  {
    BranchesSnoc(name, extractors, j);
    AppendRegroup(head, Branches(name, extractors[..j]), Branch(name, extractors[j], j == 0));
  }

  /** One turn of the outer loop appends the next library's part. */
  lemma BlockStep(m: ExtractorMap, i: nat, before: string)
    requires i < |m|
    requires before == Header + Blocks(m[..i])
    ensures before + "\n\n" + "// " + m[i].0 + Branches(m[i].0, m[i].1[..|m[i].1|]) == Header + Blocks(m[..i + 1])
  {
    var name, extractors := m[i].0, m[i].1;
    assert extractors[..|extractors|] == extractors;
    BlocksSnoc(m, i);
    HeadRegroup(before, "\n\n", "// ", name, Branches(name, extractors));
    BlockRegroup(Header, Blocks(m[..i]), BlockHead(name), Branches(name, extractors));
  }

  lemma BranchesSnoc(name: string, extractors: seq<string>, j: nat)
    requires j < |extractors|
    ensures Branches(name, extractors[..j + 1]) == Branches(name, extractors[..j]) + Branch(name, extractors[j], j == 0)
  {
    assert extractors[..j + 1][..j] == extractors[..j];
  }

  lemma BlocksSnoc(m: ExtractorMap, i: nat)
    requires i < |m|
    ensures Blocks(m[..i + 1]) == Blocks(m[..i]) + Block(m[i].0, m[i].1)
  {
    assert m[..i + 1][..i] == m[..i];
  }

  /** Adding a library at the end of the map adds its part at the end of the script. */
  lemma ScriptSnoc(m: ExtractorMap, name: string, extractors: seq<string>)
    ensures Script(m + [(name, extractors)]) == Script(m) + Block(name, extractors)
  {
    assert (m + [(name, extractors)])[..|m|] == m;
    AppendRegroup(Header, Blocks(m), Block(name, extractors));
  }

  /** One branch per extractor, the first with `if` and every later one with `else if`. */
  function BranchList(name: string, extractors: seq<string>): seq<string>
  {
    if extractors == [] then []
    else
      var init := extractors[..|extractors| - 1];
      BranchList(name, init) + [Branch(name, extractors[|extractors| - 1], init == [])]
  }

  /** The `k`-th branch checks the `k`-th extractor, and only the first one opens with `if`. */
  lemma {:induction false} BranchListAt(name: string, extractors: seq<string>, k: nat)
    ensures |BranchList(name, extractors)| == |extractors|
    ensures k < |extractors| ==> BranchList(name, extractors)[k] == Branch(name, extractors[k], k == 0)
  {
    if extractors != [] {
      var init, e := extractors[..|extractors| - 1], extractors[|extractors| - 1];
      var first := init == [];
      BranchListAt(name, init, k);
      assert BranchList(name, extractors) == BranchList(name, init) + [Branch(name, e, first)];
      if k < |init| {
        assert extractors[k] == init[k];
      } else if k == |init| {
        assert first == (k == 0);
        assert extractors[k] == e;
      }
    }
  }

  /** A library's branches are its branch list, concatenated in order. */
  lemma {:induction false} BranchesFlatten(name: string, extractors: seq<string>)
    ensures Branches(name, extractors) == Flatten(BranchList(name, extractors))
  {
    if extractors != [] {
      var init, e := extractors[..|extractors| - 1], extractors[|extractors| - 1];
      var b := Branch(name, e, init == []);
      calc {
        Branches(name, extractors);
        Branches(name, init) + b;
        { BranchesFlatten(name, init); }
        Flatten(BranchList(name, init)) + b;
        { FlattenPush(BranchList(name, init), b); }
        Flatten(BranchList(name, init) + [b]);
      }
    }
  }

  /** One part per library, in the map's order. */
  function BlockList(m: ExtractorMap): seq<string>
  {
    if m == [] then [] else BlockList(m[..|m| - 1]) + [Block(m[|m| - 1].0, m[|m| - 1].1)]
  }

  /** The `i`-th part is the `i`-th library's. */
  lemma {:induction false} BlockListAt(m: ExtractorMap, i: nat)
    ensures |BlockList(m)| == |m|
    ensures i < |m| ==> BlockList(m)[i] == Block(m[i].0, m[i].1)
  {
    if m != [] {
      var init, last := m[..|m| - 1], m[|m| - 1];
      BlockListAt(init, i);
      assert BlockList(m) == BlockList(init) + [Block(last.0, last.1)];
      if i < |init| {
        assert m[i] == init[i];
      } else if i == |init| {
        assert m[i] == last;
      }
    }
  }

  lemma {:induction false} BlocksFlatten(m: ExtractorMap)
    ensures Blocks(m) == Flatten(BlockList(m))
  {
    if m != [] {
      var init, last := m[..|m| - 1], m[|m| - 1];
      var b := Block(last.0, last.1);
      calc {
        Blocks(m);
        Blocks(init) + b;
        { BlocksFlatten(init); }
        Flatten(BlockList(init)) + b;
        { FlattenPush(BlockList(init), b); }
        Flatten(BlockList(init) + [b]);
      }
    }
  }
}
