/**
 * The content tree that the folder model builds and the page controller
 * consumes: PHP arrays of item objects, where a folder item carries its
 * children in `folderContent`.
 */
module ContentTree {
  import opened Values

  /** One content item; `kind` tells a page from a folder with children. */
  datatype Item = Item(
    name: string,
    path: string,
    urlRel: string,
    keyPathArray: seq<int>,
    hide: PhpValue,
    kind: Kind)

  /** `elementType` together with the folder-only field `folderContent`. */
  datatype Kind = Page | Folder(folderContent: seq<Slot>)

  /** One position of a PHP array: the array key and the item stored under it. */
  datatype Slot = Slot(key: int, item: Item)

  type Tree = seq<Slot>

  /** `$element->hide === true` */
  predicate IsHidden(it: Item) {
    IsStrictlyTrue(it.hide)
  }

  /** PHP array keys are unique within one array. */
  predicate UniqueKeys(t: Tree) {
    forall i, j :: 0 <= i < j < |t| ==> t[i].key != t[j].key
  }

  /** Keys are unique in every array of the tree. */
  predicate WellKeyed(t: Tree)
    decreases t
  {
    && UniqueKeys(t)
    && forall i :: 0 <= i < |t| ==> WellKeyedSlot(t[i])
  }

  predicate WellKeyedSlot(s: Slot)
    decreases s
  {
    match s.item.kind
    case Page => true
    case Folder(children) => WellKeyed(children)
  }

  /** `$tree[$k]`, if that key is set. */
  function Lookup(t: Tree, k: int): (r: Option<Item>)
    ensures r.None? <==> forall i :: 0 <= i < |t| ==> t[i].key != k
    ensures r.Some? ==> exists i :: 0 <= i < |t| && t[i].key == k && t[i].item == r.value
  {
    if |t| == 0 then None
    else if t[0].key == k then Some(t[0].item)
    else
      var r := Lookup(t[1..], k);
      assert forall i :: 1 <= i < |t| ==> t[i] == t[1..][i - 1];
      r
  }

  /** The item reached by following the array keys `p` from the root. */
  function At(t: Tree, p: seq<int>): Option<Item>
    decreases p
  {
    if |p| == 0 then None
    else match Lookup(t, p[0])
      case None => None
      case Some(it) =>
        if |p| == 1 then Some(it)
        else if it.kind.Folder? then At(it.kind.folderContent, p[1..])
        else None
  }

  /** The key path `p` exists in `t` and no item along it is hidden. */
  predicate VisibleAt(t: Tree, p: seq<int>)
    ensures VisibleAt(t, p) ==> At(t, p).Some?
    decreases p
  {
    && |p| > 0
    && Lookup(t, p[0]).Some?
    && !IsHidden(Lookup(t, p[0]).value)
    && (|p| == 1 ||
        (Lookup(t, p[0]).value.kind.Folder? && VisibleAt(Lookup(t, p[0]).value.kind.folderContent, p[1..])))
  }
}
