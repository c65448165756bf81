/**
 * The clipboard history: a most-recent-first list of clipboard entries
 * (`ClipboardHistory` in src-tauri/src/lib.rs), which the operations keep
 * bounded and duplicate-free when it starts so, and the list effects of the
 * commands that maintain it.
 */
module History {
  import opened Common

  /** One clipboard entry: `content` is the text, or the Base64 PNG of an image. */
  datatype ClipboardItem = ClipboardItem(content: string, kind: string, timestamp: string)

  /** Two entries are duplicates when content and kind agree; the timestamp is ignored. */
  predicate SameEntry(a: ClipboardItem, b: ClipboardItem): (r: bool)
    ensures r <==> a.(timestamp := b.timestamp) == b
  {
    a.content == b.content && a.kind == b.kind
  }

  /** No two entries of `s` are duplicates of each other. */
  predicate NoDuplicates(s: seq<ClipboardItem>)
  {
    forall i, j :: 0 <= i < j < |s| ==> !SameEntry(s[i], s[j])
  }

  /** At most one entry of `s` duplicates `item`. */
  predicate AtMostOne(s: seq<ClipboardItem>, item: ClipboardItem)
  {
    forall i, j :: 0 <= i < |s| && 0 <= j < |s| && SameEntry(s[i], item) && SameEntry(s[j], item) ==> i == j
  }

  /** Index of the first entry that duplicates `item`, as `iter().position(..)` finds it. */
  function Position(s: seq<ClipboardItem>, item: ClipboardItem): (r: Option<nat>)
    ensures r.Some? ==> r.value < |s| && SameEntry(s[r.value], item)
    ensures r.Some? ==> forall j :: 0 <= j < r.value ==> !SameEntry(s[j], item)
    ensures r.None? ==> forall j :: 0 <= j < |s| ==> !SameEntry(s[j], item)
  {
    if s == [] then None
    else if SameEntry(s[0], item) then Some(0)
    else match Position(s[1..], item)
      case None => None
      case Some(k) => Some(k + 1)
  }

  /** `Vec::remove(i)`: the element at `i` goes, the others close up in order. */
  function RemoveAt<T>(s: seq<T>, i: nat): (r: seq<T>)
    requires i < |s|
    ensures |r| == |s| - 1
    ensures forall k :: 0 <= k < i ==> r[k] == s[k]
    ensures forall k :: i <= k < |r| ==> r[k] == s[k + 1]
  {
    s[..i] + s[i + 1..]
  }

  /** The list after the first duplicate of `item` (if any) is removed. */
  function Deduped(s: seq<ClipboardItem>, item: ClipboardItem): (r: seq<ClipboardItem>)
    ensures Position(s, item).Some? ==> |r| == |s| - 1
    ensures Position(s, item).None? ==> r == s
  {
    match Position(s, item)
    case Some(p) => RemoveAt(s, p)
    case None => s
  }

  /**
   * The list `push` leaves behind: drop the first duplicate of `item`, put
   * `item` at the front, and drop the last entry if that overflows `maxSize`.
   */
  function Pushed(s: seq<ClipboardItem>, item: ClipboardItem, maxSize: nat): (r: seq<ClipboardItem>)
    ensures maxSize >= 1 ==> |r| >= 1 && r[0] == item
    ensures forall k :: 0 < k < |r| ==> r[k] in s
    ensures |s| <= maxSize ==> |r| <= maxSize
    ensures |r| <= |s| + 1
  {
    var inserted := [item] + Deduped(s, item);
    if |inserted| > maxSize then inserted[..|inserted| - 1] else inserted
  }

  /** Every entry of `s` that does not duplicate `item`, in order: a reference definition. */
  function Without(s: seq<ClipboardItem>, item: ClipboardItem): seq<ClipboardItem>
  {
    if s == [] then []
    else if SameEntry(s[0], item) then Without(s[1..], item)
    else [s[0]] + Without(s[1..], item)
  }

  // ---------------------------------------------------------------------
  // Properties of Pushed

  /** If `s` held at most one duplicate of `item`, none is left after removing the first. */
  lemma DedupedHasNoCopy(s: seq<ClipboardItem>, item: ClipboardItem)
    requires AtMostOne(s, item)
    ensures forall k :: 0 <= k < |Deduped(s, item)| ==> !SameEntry(Deduped(s, item)[k], item)
  {
  }

  /**
   * The shape of the new list: `item` first, then a prefix of the old list
   * with its first duplicate of `item` removed; the prefix loses only the last
   * (oldest) entry, and only when the list would otherwise exceed `maxSize`.
   */
  lemma PushedShape(s: seq<ClipboardItem>, item: ClipboardItem, maxSize: nat)
    requires maxSize >= 1
    ensures var r, d := Pushed(s, item, maxSize), Deduped(s, item);
      && |r| >= 1 && r[0] == item
      && r[1..] == d[..|r| - 1]
      && |r| == (if |d| < maxSize then |d| + 1 else |d|)
  {
  }

  /** A list within its bound stays within it. */
  lemma PushedWithinBound(s: seq<ClipboardItem>, item: ClipboardItem, maxSize: nat)
    requires |s| <= maxSize
    ensures |Pushed(s, item, maxSize)| <= maxSize
  {
  }

  /** Over capacity only one entry goes, so an oversized list shrinks by at most one. */
  lemma PushedOverCapacity(s: seq<ClipboardItem>, item: ClipboardItem, maxSize: nat)
    requires |s| > maxSize
    ensures |Pushed(s, item, maxSize)| >= |s| - 1
    ensures |Pushed(s, item, maxSize)| > maxSize || |s| == maxSize + 1
  {
  }

  /**
   * Over capacity, pushing an entry that is already present removes the
   * duplicate and the last entry, so the list gets one shorter.
   */
  lemma PushedOverCapacityExisting(s: seq<ClipboardItem>, item: ClipboardItem, maxSize: nat)
    requires |s| > maxSize
    requires exists k :: 0 <= k < |s| && SameEntry(s[k], item)
    ensures |Pushed(s, item, maxSize)| == |s| - 1
  {
  }

  /** Over capacity, pushing a new entry drops only the last one, so the length stays. */
  lemma PushedOverCapacityNew(s: seq<ClipboardItem>, item: ClipboardItem, maxSize: nat)
    requires |s| > maxSize
    requires forall k :: 0 <= k < |s| ==> !SameEntry(s[k], item)
    ensures |Pushed(s, item, maxSize)| == |s|
  {
  }

  /** Pushing an entry that is already present, within the bound, keeps the length and moves it to the front. */
  lemma PushedExisting(s: seq<ClipboardItem>, item: ClipboardItem, maxSize: nat)
    requires |s| <= maxSize
    requires exists k :: 0 <= k < |s| && SameEntry(s[k], item)
    ensures |Pushed(s, item, maxSize)| == |s|
    ensures Pushed(s, item, maxSize)[0] == item
  {
  }

  /** Pushing a new entry below the bound just prepends it. */
  lemma PushedNew(s: seq<ClipboardItem>, item: ClipboardItem, maxSize: nat)
    requires |s| < maxSize
    requires forall k :: 0 <= k < |s| ==> !SameEntry(s[k], item)
    ensures Pushed(s, item, maxSize) == [item] + s
  {
  }

  /**
   * With at most one duplicate before, afterwards `item` is the only entry
   * with its content and kind (and it is at the front when `maxSize >= 1`).
   */
  lemma PushedSingleCopy(s: seq<ClipboardItem>, item: ClipboardItem, maxSize: nat)
    requires AtMostOne(s, item)
    ensures AtMostOne(Pushed(s, item, maxSize), item)
    ensures maxSize >= 1 ==> forall k :: 0 < k < |Pushed(s, item, maxSize)| ==> !SameEntry(Pushed(s, item, maxSize)[k], item)
  {
    DedupedHasNoCopy(s, item);
    var r, d := Pushed(s, item, maxSize), Deduped(s, item);
    assert forall k :: 0 < k < |r| ==> r[k] == d[k - 1];
  }

  /** Removing one element keeps a duplicate-free list duplicate-free. */
  lemma RemoveAtNoDuplicates(s: seq<ClipboardItem>, i: nat)
    requires i < |s| && NoDuplicates(s)
    ensures NoDuplicates(RemoveAt(s, i))
  {
  }

  /** A duplicate-free history stays duplicate-free. */
  lemma PushedNoDuplicates(s: seq<ClipboardItem>, item: ClipboardItem, maxSize: nat)
    requires NoDuplicates(s)
    ensures NoDuplicates(Pushed(s, item, maxSize))
  {
    assert AtMostOne(s, item);
    DedupedHasNoCopy(s, item);
    var d := Deduped(s, item);
    match Position(s, item)
    case None =>
    case Some(p) => RemoveAtNoDuplicates(s, p);
    assert NoDuplicates(d);
    var r := Pushed(s, item, maxSize);
    forall a, b | 0 <= a < b < |r| ensures !SameEntry(r[a], r[b]) {
      assert r[b] == d[b - 1];
      if a > 0 {
        assert r[a] == d[a - 1];
      }
    }
  }

  /** Without leaves out every duplicate, so it equals the list when there is none. */
  lemma {:induction false} WithoutAbsent(s: seq<ClipboardItem>, item: ClipboardItem)
    requires forall k :: 0 <= k < |s| ==> !SameEntry(s[k], item)
    ensures Without(s, item) == s
  {
    if s != [] {
      WithoutAbsent(s[1..], item);
    }
  }

  /** With at most one duplicate, removing the first duplicate is removing all of them. */
  lemma {:induction false} DedupedIsWithout(s: seq<ClipboardItem>, item: ClipboardItem)
    requires AtMostOne(s, item)
    ensures Deduped(s, item) == Without(s, item)
  {
    if s == [] {
    } else if SameEntry(s[0], item) {
      assert forall k :: 0 <= k < |s[1..]| ==> !SameEntry(s[1..][k], item) by {
        forall k | 0 <= k < |s[1..]| ensures !SameEntry(s[1..][k], item) {
          assert s[1..][k] == s[k + 1];
        }
      }
      WithoutAbsent(s[1..], item);
      assert Deduped(s, item) == s[1..];
    } else {
      var t := s[1..];
      assert AtMostOne(t, item) by {
        forall i, j | 0 <= i < |t| && 0 <= j < |t| && SameEntry(t[i], item) && SameEntry(t[j], item)
          ensures i == j
        {
          assert t[i] == s[i + 1] && t[j] == s[j + 1];
        }
      }
      DedupedIsWithout(t, item);
      match Position(t, item)
      case None =>
        assert Position(s, item).None?;
      case Some(k) =>
        assert Position(s, item) == Some(k + 1);
        assert RemoveAt(s, k + 1) == [s[0]] + RemoveAt(t, k);
    }
  }

  /**
   * Move to front: on a list within its bound with at most one duplicate of
   * `item`, push yields `item` followed by all the other entries in their old
   * order, cut to `maxSize` entries.
   */
  lemma PushedIsMoveToFront(s: seq<ClipboardItem>, item: ClipboardItem, maxSize: nat)
    requires |s| <= maxSize && AtMostOne(s, item)
    ensures Pushed(s, item, maxSize) == Take([item] + Without(s, item), maxSize)
  {
    DedupedIsWithout(s, item);
  }

  // ---------------------------------------------------------------------
  // The history object

  /** `ClipboardHistory`: the entries, most recent first, and the size bound. */
  class ClipboardHistory {
    var items: seq<ClipboardItem>
    var maxSize: nat

    /**
     * What the operations modelled here keep: within the bound and without
     * duplicates. A history loaded from disk at start-up is assigned to
     * `items` as it is and need not satisfy this.
     */
    predicate Valid()
      reads this
    {
      |items| <= maxSize && NoDuplicates(items)
    }

    /** `ClipboardHistory::new`. */
    constructor (maxSize: nat)
      ensures this.items == [] && this.maxSize == maxSize
      ensures Valid()
    {
      items := [];
      this.maxSize := maxSize;
    }

    /** `ClipboardHistory::push`. */
    method Push(item: ClipboardItem)
      modifies this
      ensures maxSize == old(maxSize)
      ensures items == Pushed(old(items), item, maxSize)
      ensures maxSize >= 1 ==> items[0] == item
      ensures old(Valid()) ==> Valid()
    {
      ghost var before := items;
      var index := Position(items, item);
      if index.Some? {
        items := RemoveAt(items, index.value);
      }
      items := [item] + items;
      if |items| > maxSize {
        items := items[..|items| - 1];
      }
      if NoDuplicates(before) {
        PushedNoDuplicates(before, item, maxSize);
      }
    }

    /**
     * The history part of `set_clipboard_item`: `written` is whether writing
     * the entry to the system clipboard succeeded; only then is it pushed.
     */
    method SetClipboardItem(item: ClipboardItem, written: bool) returns (ok: bool)
      modifies this
      ensures ok == written
      ensures maxSize == old(maxSize)
      ensures items == if written then Pushed(old(items), item, maxSize) else old(items)
      ensures old(Valid()) ==> Valid()
    {
      if !written {
        return false;
      }
      Push(item);
      return true;
    }

    /**
     * The history part of `save_config`: `written` is whether writing the new
     * config file succeeded; only then is the new bound set and entries
     * popped until it holds.
     */
    method SetMaxSize(newMax: nat, written: bool) returns (ok: bool)
      modifies this
      ensures ok == written
      ensures !written ==> items == old(items) && maxSize == old(maxSize)
      ensures written ==> maxSize == newMax
      ensures written ==> items == old(items)[..Min(|old(items)|, newMax)]
      ensures written ==> |items| <= maxSize
      ensures written && old(NoDuplicates(items)) ==> Valid()
      ensures !written && old(Valid()) ==> Valid()
    {
      if !written {
        return false;
      }
      maxSize := newMax;
      while |items| > newMax
        invariant |items| <= |old(items)|
        invariant items == old(items)[..|items|]
        invariant |items| >= Min(|old(items)|, newMax)
        invariant maxSize == newMax
        decreases |items|
      {
        items := items[..|items| - 1];
      }
      if old(NoDuplicates(items)) {
        assert forall i, j :: 0 <= i < j < |items| ==> items[i] == old(items)[i] && items[j] == old(items)[j];
      }
      return true;
    }

    /** `delete_item`: remove the entry at `index` when it exists, else change nothing. */
    method DeleteItem(index: nat)
      modifies this
      ensures maxSize == old(maxSize)
      ensures index < |old(items)| ==> items == RemoveAt(old(items), index)
      ensures index >= |old(items)| ==> items == old(items)
      ensures old(Valid()) ==> Valid()
    {
      if index < |items| {
        if Valid() {
          RemoveAtNoDuplicates(items, index);
        }
        items := RemoveAt(items, index);
      }
    }

    /** `clear_history`. */
    method Clear()
      modifies this
      ensures items == [] && maxSize == old(maxSize)
      ensures Valid()
    {
      items := [];
    }
  }
}
