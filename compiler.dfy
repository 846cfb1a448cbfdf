/**
 * The two stages together: the signature documents are normalized into an
 * extractor map, and the map is written out as the libreveal.js script.
 */
module Compiler {
  import opened Text
  import opened ExtractorMaps
  import opened Normalizer
  import opened Assembler

  /**
   * The script compiled from a list of signature documents: after the
   * header, one part per library name that some entry files a non-empty
   * `func` list under, in order of first appearance, each holding one branch
   * per broken-up extractor filed under that name, in document order.
   */
  lemma ScriptOfDocuments(docs: seq<Document>)
    requires Normalize(docs).Ok?
    ensures var m := Normalize(docs).value;
      Script(m) == Header + Flatten(BlockList(m))
    ensures var m, es := Normalize(docs).value, Flatten(docs);
      var names := Dedup(FedNames(es));
      |BlockList(m)| == |names| &&
      forall i :: 0 <= i < |names| ==> BlockList(m)[i] == Block(names[i], Collected(es, names[i]))
  {
    var es := Flatten(docs);
    var names := Dedup(FedNames(es));
    var m := Normalize(docs).value;
    NormalizeFacts(docs);
    BlocksFlatten(m);
    BlockListAt(m, 0);
    forall i | 0 <= i < |names| ensures BlockList(m)[i] == Block(names[i], Collected(es, names[i])) {
      BlockListAt(m, i);
      GetAt(m, i);
    }
  }
}
