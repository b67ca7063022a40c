/**
 * Navigation derivation: deciding whether the extended structure document
 * hides anything, and pruning hidden items (with their whole subtrees) out
 * of the content tree.
 */
module Navigation {
  import opened Values
  import opened ContentTree

  /** One entry of the extended structure document: attribute name to value. */
  type ExtendedEntry = map<string, PhpValue>

  /** The extended structure document: item path to its entry, in document order. */
  type Extended = seq<(string, ExtendedEntry)>

  /** `isset($element['hide']) && $element['hide'] === true` */
  predicate HidesPage(e: ExtendedEntry) {
    "hide" in e && IsStrictlyTrue(e["hide"])
  }

  /** Some entry of the document hides its page. */
  predicate SomeEntryHides(extended: Extended) {
    exists i :: 0 <= i < |extended| && HidesPage(extended[i].1)
  }

  /** The early-return search of `containsHiddenPages`. */
  method ContainsHiddenPages(extended: Extended) returns (found: bool)
    ensures found <==> SomeEntryHides(extended)
  {
    for i := 0 to |extended|
      invariant forall j :: 0 <= j < i ==> !HidesPage(extended[j].1)
    {
      if HidesPage(extended[i].1) {
        return true;
      }
    }
    return false;
  }

  /**
   * `createNavigationFromStructure`: drop every hidden item, keep the others
   * under their own keys and in their order, and prune the children of
   * every kept folder.
   */
  function Prune(t: Tree): (r: Tree)
    ensures |r| <= |t|
    ensures forall j :: 0 <= j < |r| ==> !IsHidden(r[j].item)
    decreases t
  {
    if |t| == 0 then []
    else if IsHidden(t[0].item) then Prune(t[1..])
    else [Slot(t[0].key, PrunedItemOf(t[0]))] + Prune(t[1..])
  }

  /**
   * The item of a kept slot, with its children pruned if it is a folder.
   * This is `PruneItem` on the slot's item; it takes the slot so that the
   * recursion with `Prune` can decrease on the slot.
   */
  function PrunedItemOf(s: Slot): (r: Item)
    ensures r == PruneItem(s.item)
    decreases s
  {
    match s.item.kind
    case Page => s.item
    case Folder(children) => s.item.(kind := Folder(Prune(children)))
  }

  /** A kept item: only a folder's `folderContent` is replaced. */
  function PruneItem(it: Item): (r: Item)
    ensures r.(kind := it.kind) == it
    ensures r.kind.Folder? <==> it.kind.Folder?
    ensures it.kind.Page? ==> r == it
  {
    match it.kind
    case Page => it
    case Folder(children) => it.(kind := Folder(Prune(children)))
  }

  /** No item at any depth of `t` is hidden. */
  predicate NoneHidden(t: Tree)
    decreases t
  {
    forall i :: 0 <= i < |t| ==> SlotNoneHidden(t[i])
  }

  predicate SlotNoneHidden(s: Slot)
    decreases s
  {
    && !IsHidden(s.item)
    && match s.item.kind
       case Page => true
       case Folder(children) => NoneHidden(children)
  }

  /** After pruning no item is hidden, at any depth. */
  lemma {:induction false} PruneLeavesNothingHidden(t: Tree)
    ensures NoneHidden(Prune(t))
    decreases t
  {
    if |t| > 0 {
      PruneLeavesNothingHidden(t[1..]);
      if !IsHidden(t[0].item) {
        KeptSlotHasNothingHidden(t[0]);
        var r := Prune(t);
        assert r == [Slot(t[0].key, PrunedItemOf(t[0]))] + Prune(t[1..]);
        assert forall i :: 1 <= i < |r| ==> r[i] == Prune(t[1..])[i - 1];
      }
    }
  }

  lemma {:induction false} KeptSlotHasNothingHidden(s: Slot)
    requires !IsHidden(s.item)
    ensures SlotNoneHidden(Slot(s.key, PrunedItemOf(s)))
    decreases s
  {
    match s.item.kind
    case Page =>
    case Folder(children) =>
      PruneLeavesNothingHidden(children);
  }

  /** The number of items of `t` that are not hidden. */
  function VisibleCount(t: Tree): (n: nat)
    ensures n <= |t|
  {
    if |t| == 0 then 0
    else (if IsHidden(t[0].item) then 0 else 1) + VisibleCount(t[1..])
  }

  lemma {:induction false} VisibleCountAppend(a: Tree, b: Tree)
    ensures VisibleCount(a + b) == VisibleCount(a) + VisibleCount(b)
  {
    if |a| > 0 {
      assert (a + b)[1..] == a[1..] + b;
      VisibleCountAppend(a[1..], b);
    } else {
      assert a + b == b;
    }
  }

  /**
   * Every item that is not hidden survives, under its own key and with only
   * its children pruned, at the position given by the number of items kept
   * before it; the result holds nothing else.
   */
  lemma {:induction false} PruneKeepsVisible(t: Tree, i: nat)
    requires i < |t|
    ensures |Prune(t)| == VisibleCount(t)
    ensures !IsHidden(t[i].item) ==>
      && VisibleCount(t[..i]) < |Prune(t)|
      && Prune(t)[VisibleCount(t[..i])] == Slot(t[i].key, PruneItem(t[i].item))
    decreases t
  {
    if i == 0 {
      assert t[..0] == [];
      if |t| > 1 {
        PruneKeepsVisible(t[1..], 0);
      }
    } else {
      assert t[..i][1..] == t[1..][..i - 1];
      PruneKeepsVisible(t[1..], i - 1);
    }
  }

  /** Conversely, every slot of the pruned array comes from a visible item. */
  lemma {:induction false} PruneKeepsOnlyVisible(t: Tree, j: nat)
    requires j < |Prune(t)|
    ensures exists i :: (0 <= i < |t| && !IsHidden(t[i].item) && VisibleCount(t[..i]) == j &&
                         Prune(t)[j] == Slot(t[i].key, PruneItem(t[i].item)))
    decreases t
  {
    if !IsHidden(t[0].item) && j == 0 {
      assert t[..0] == [];
      assert !IsHidden(t[0].item) && VisibleCount(t[..0]) == j && Prune(t)[j] == Slot(t[0].key, PruneItem(t[0].item));
    } else {
      var j' := if IsHidden(t[0].item) then j else j - 1;
      PruneKeepsOnlyVisible(t[1..], j');
      var i' :| 0 <= i' < |t[1..]| && !IsHidden(t[1..][i'].item) && VisibleCount(t[1..][..i']) == j' &&
        Prune(t[1..])[j'] == Slot(t[1..][i'].key, PruneItem(t[1..][i'].item));
      assert t[..i' + 1][1..] == t[1..][..i'];
      assert 0 <= i' + 1 < |t| && !IsHidden(t[i' + 1].item) && VisibleCount(t[..i' + 1]) == j &&
        Prune(t)[j] == Slot(t[i' + 1].key, PruneItem(t[i' + 1].item));
    }
  }

  /** Two visible items keep their relative order. */
  lemma PruneKeepsOrder(t: Tree, i: nat, j: nat)
    requires i < j < |t| && !IsHidden(t[i].item) && !IsHidden(t[j].item)
    ensures VisibleCount(t[..i]) < VisibleCount(t[..j]) < |Prune(t)|
    ensures Prune(t)[VisibleCount(t[..i])].key == t[i].key
    ensures Prune(t)[VisibleCount(t[..j])].key == t[j].key
  {
    PruneKeepsVisible(t, i);
    PruneKeepsVisible(t, j);
    assert t[..j] == t[..i] + t[i..j];
    VisibleCountAppend(t[..i], t[i..j]);
    assert t[i..j][0] == t[i];
  }

  /** Keys of the pruned array are keys of the original array. */
  lemma {:induction false} PruneKeysFromOriginal(t: Tree, k: int)
    requires forall i :: 0 <= i < |t| ==> t[i].key != k
    ensures forall j :: 0 <= j < |Prune(t)| ==> Prune(t)[j].key != k
    decreases t
  {
    if |t| > 0 {
      PruneKeysFromOriginal(t[1..], k);
      assert forall i :: 1 <= i < |t| ==> t[1..][i - 1] == t[i];
      if !IsHidden(t[0].item) {
        var r := Prune(t);
        assert forall j :: 1 <= j < |r| ==> r[j] == Prune(t[1..])[j - 1];
      }
    }
  }

  /** Looking a key up in the pruned array finds the pruned item iff it was visible. */
  lemma {:induction false} LookupPrune(t: Tree, k: int)
    requires UniqueKeys(t)
    ensures Lookup(Prune(t), k) ==
      if Lookup(t, k).Some? && !IsHidden(Lookup(t, k).value) then Some(PruneItem(Lookup(t, k).value)) else None
    decreases t
  {
    if |t| > 0 {
      assert forall i :: 1 <= i < |t| ==> t[1..][i - 1] == t[i];
      if t[0].key == k {
        PruneKeysFromOriginal(t[1..], k);
      } else {
        LookupPrune(t[1..], k);
      }
    }
  }

  /**
   * The pruned tree holds an item at key path `p` iff the original holds one
   * there and no item along the path is hidden; the item is then the
   * original one with its children pruned. So a hidden folder's whole
   * subtree is gone, and every other item is still reachable.
   */
  lemma {:induction false} PruneAt(t: Tree, p: seq<int>)
    requires WellKeyed(t)
    ensures At(Prune(t), p) == if VisibleAt(t, p) then Some(PruneItem(At(t, p).value)) else None
    decreases p
  {
    if |p| > 0 {
      LookupPrune(t, p[0]);
      var found := Lookup(t, p[0]);
      if found.Some? && !IsHidden(found.value) && |p| > 1 && found.value.kind.Folder? {
        var i :| 0 <= i < |t| && t[i].key == p[0] && t[i].item == found.value;
        assert WellKeyedSlot(t[i]);
        PruneAt(found.value.kind.folderContent, p[1..]);
      }
    }
  }

  /**
   * What the array `$structure` looks like once `createNavigationFromStructure`
   * has run on it: the array itself is copied, but the item objects are
   * shared, so every visible top-level item has had its `folderContent`
   * replaced by the pruned children.
   */
  function SharedAfterPrune(t: Tree): (r: Tree)
    ensures |r| == |t|
    ensures forall i :: 0 <= i < |t| ==> r[i].key == t[i].key && r[i].item.(kind := t[i].item.kind) == t[i].item
    ensures forall i :: 0 <= i < |t| && IsHidden(t[i].item) ==> r[i] == t[i]
  {
    seq(|t|, i requires 0 <= i < |t| => if IsHidden(t[i].item) then t[i] else Slot(t[i].key, PruneItem(t[i].item)))
  }

  /**
   * Reading `$structure` back from memory after pruning would lose a hidden
   * item below a visible folder; this is why the fresh structure is reloaded
   * from the cache, where it was written before pruning.
   */
  lemma SharedAfterPruneLosesHiddenChildren(t: Tree, i: nat, j: nat)
    requires i < |t| && !IsHidden(t[i].item) && t[i].item.kind.Folder?
    requires j < |t[i].item.kind.folderContent| && IsHidden(t[i].item.kind.folderContent[j].item)
    ensures SharedAfterPrune(t) != t
    ensures |SharedAfterPrune(t)[i].item.kind.folderContent| < |t[i].item.kind.folderContent|
  {
    var children := t[i].item.kind.folderContent;
    PruneKeepsVisible(children, j);
    VisibleCountBelowLength(children, j);
  }

  /**
   * Each visible item of `$structure` is the very object the navigation
   * holds after pruning.
   */
  lemma SharedAfterPruneMatchesNavigation(t: Tree, i: nat)
    requires i < |t| && !IsHidden(t[i].item)
    ensures VisibleCount(t[..i]) < |Prune(t)|
    ensures SharedAfterPrune(t)[i] == Prune(t)[VisibleCount(t[..i])]
  {
    PruneKeepsVisible(t, i);
  }

  lemma {:induction false} VisibleCountBelowLength(t: Tree, j: nat)
    requires j < |t| && IsHidden(t[j].item)
    ensures VisibleCount(t) < |t|
    decreases t
  {
    if j > 0 {
      VisibleCountBelowLength(t[1..], j - 1);
    }
  }

  /** Pruning a tree without hidden items at any depth changes nothing. */
  lemma {:induction false} PruneWithoutHiddenIsIdentity(t: Tree)
    requires NoneHidden(t)
    ensures Prune(t) == t
    decreases t
  {
    if |t| > 0 {
      assert SlotNoneHidden(t[0]);
      assert NoneHidden(t[1..]) by {
        assert forall i :: 1 <= i < |t| ==> t[1..][i - 1] == t[i];
      }
      PruneWithoutHiddenIsIdentity(t[1..]);
      PrunedItemOfUnhidden(t[0]);
      assert t == [t[0]] + t[1..];
    }
  }

  lemma {:induction false} PrunedItemOfUnhidden(s: Slot)
    requires SlotNoneHidden(s)
    ensures PrunedItemOf(s) == s.item
    decreases s
  {
    match s.item.kind
    case Page =>
    case Folder(children) =>
      PruneWithoutHiddenIsIdentity(children);
  }
}
