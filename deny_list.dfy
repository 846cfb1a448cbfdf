/** The library-name deny-list: the example entry of the signature database is never compiled. */
module DenyList {
  import opened Text

  /** The one deny-listed library name, compared in lower case. */
  const DeniedName: string := "retire-example"

  /** `is_in_library_name_blacklist`: the name lower-cases to `retire-example`. */
  predicate IsInLibraryNameBlacklist(name: string)
  {
    Lower(name) == DeniedName
  }

  /**
   * The deny-list check in full: a name is denied exactly when it spells
   * `retire-example` in any mix of ASCII upper and lower case, character by
   * character.
   */
  lemma DeniedInAnyCasing(name: string)
    ensures IsInLibraryNameBlacklist(name) <==>
      |name| == |DeniedName| &&
      forall i :: 0 <= i < |name| ==> name[i] == DeniedName[i] || name[i] == UpperChar(DeniedName[i])
  {
    LowerFacts(name);
    if |name| == |DeniedName| && forall i :: 0 <= i < |name| ==> name[i] == DeniedName[i] || name[i] == UpperChar(DeniedName[i]) {
      forall i | 0 <= i < |name| ensures Lower(name)[i] == DeniedName[i] {
        assert 'a' <= DeniedName[i] <= 'z' || DeniedName[i] == '-';
      }
    }
  }

  /** Only the exact name is denied: near misses and other libraries are kept. */
  lemma NearMissesKept()
    ensures !IsInLibraryNameBlacklist("retire-examples")
    ensures !IsInLibraryNameBlacklist("retire_example")
    ensures !IsInLibraryNameBlacklist("jquery")
  {
    DeniedInAnyCasing("retire-examples");
    DeniedInAnyCasing("jquery");
    assert !IsInLibraryNameBlacklist("retire_example") by {
      DeniedInAnyCasing("retire_example");
      assert "retire_example"[6] != DeniedName[6] && "retire_example"[6] != UpperChar(DeniedName[6]);
    }
  }
}
