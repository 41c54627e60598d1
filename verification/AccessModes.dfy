/** Access modes and their order (internal/authz/types.go, internal/authz/audit.go). */
module AccessModes {

  import opened Wrappers
  import opened Text
  import opened Sorting

  function ModeRank(mode: string): nat {
    if mode == "read" then 0
    else if mode == "append" then 1
    else if mode == "write" then 2
    else if mode == "control" then 3
    else 99
  }

  predicate ModeLess(a: string, b: string) {
    ModeRank(a) < ModeRank(b)
  }

  predicate ValidMode(mode: string) {
    mode == "read" || mode == "append" || mode == "write" || mode == "control"
  }

  /** What validation demands of a list of modes: all known, none twice. */
  predicate ValidModes(modes: seq<string>) {
    && (forall i :: 0 <= i < |modes| ==> ValidMode(modes[i]))
    && (forall i, j :: 0 <= i < j < |modes| ==> modes[i] != modes[j])
  }

  lemma ValidModesComparable(modes: seq<string>)
    requires ValidModes(modes)
    ensures StrictOrder(ModeLess) && Comparable(ModeLess, modes)
  {
  }

  lemma ValidModePlain(mode: string)
    requires ValidMode(mode)
    ensures Plain(mode)
  {
  }

  /** Modes in rank order; nothing when the list is not valid. */
  function NormalModes(modes: seq<string>): Option<seq<string>> {
    if ValidModes(modes) then Some(SortBy(ModeLess, modes)) else None
  }

  /** Two valid lists have one normal form if and only if they hold the same modes. */
  lemma NormalModesForgetOrder(a: seq<string>, b: seq<string>)
    requires ValidModes(a) && ValidModes(b)
    ensures NormalModes(a) == NormalModes(b) <==> multiset(a) == multiset(b)
  {
    SortMultiset(ModeLess, a);
    SortMultiset(ModeLess, b);
    if multiset(a) == multiset(b) {
      ValidModesComparable(a);
      ValidModesComparable(b);
      SameElements(a, b);
      SortErasesOrder(ModeLess, a, b);
    }
  }
}
