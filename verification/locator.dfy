/**
  `collect_eml_files` in news_csv_50.py, over an abstract directory value: the root is
  either not a directory or lists names, some of which are subdirectories with listings of
  their own. `os.listdir` order is unspecified; the function sorts every listing before use,
  and so does the model.
 */
module Locator {
  import opened Chars
  import opened Seqs

  /** `MAX_FILES_PER_CATEGORY` */
  const MaxFilesPerCategory: int := 500

  /** The category of files found directly under the root. */
  const Uncategorized: string := "uncategorized"

  /** A directory entry: a subdirectory (with the names it lists) or anything else. */
  datatype Node = File | Dir(listing: seq<string>)

  /**
    The root folder: `NotADirectory` when `os.path.isdir` fails, otherwise its listing and
    the kind of each entry. An entry absent from `nodes` is not a directory.
   */
  datatype Root = NotADirectory | Directory(listing: seq<string>, nodes: map<string, Node>)

  /** One located file: its name, its category, and its path below the root. */
  datatype Item = Item(filename: string, category: string, path: seq<string>)

  /**
    The name ends in `.eml` once lower-cased. The only characters that lower-case to `.`, `e`, `m` or
    `l` are those characters and `E`, `M`, `L`, so this is an ASCII test.
   */
  predicate IsEml(name: string) {
    && |name| >= 4
    && name[|name| - 4] == '.'
    && LowerAscii(name[|name| - 3]) == 'e'
    && LowerAscii(name[|name| - 2]) == 'm'
    && LowerAscii(name[|name| - 1]) == 'l'
  }

  predicate IsSubdir(nodes: map<string, Node>, name: string) {
    name in nodes && nodes[name].Dir?
  }

  /** The names a subdirectory lists. */
  function Listing(nodes: map<string, Node>, name: string): seq<string> {
    if IsSubdir(nodes, name) then nodes[name].listing else []
  }

  /** The `.eml` names of a listing, in sorted order. */
  function EmlFiles(listing: seq<string>): (names: seq<string>)
    ensures Sorted(names)
    ensures forall n :: n in names <==> n in listing && IsEml(n)
  {
    var sorted := Sort(listing);
    FilterSorted(sorted, IsEml);
    assert forall n :: n in sorted <==> n in listing by {
      assert forall n :: n in sorted <==> n in multiset(sorted);
      assert forall n :: n in listing <==> n in multiset(listing);
    }
    Filter(sorted, IsEml)
  }

  /**
    The names the enumerate-and-break loop visits: the first `cap` `.eml` names in sorted
    order, none when `cap <= 0`. Every `.eml` name left out sorts after every name kept.
   */
  function Block(listing: seq<string>, cap: int): (names: seq<string>)
    ensures Sorted(names)
    ensures |names| == if cap <= 0 then 0 else if cap < |EmlFiles(listing)| then cap else |EmlFiles(listing)|
    ensures names == EmlFiles(listing)[..|names|]
    ensures forall n :: n in names ==> n in listing && IsEml(n)
    ensures forall m, n :: m in names && n in listing && IsEml(n) && n !in names ==> StrLe(m, n)
  {
    var all := EmlFiles(listing);
    var names := Take(all, cap);
    PrefixBeforeRest(all, |names|);
    names
  }

  /** In a sorted sequence, everything in a prefix comes before everything outside it. */
  lemma PrefixBeforeRest(all: seq<string>, k: nat)
    requires Sorted(all) && k <= |all|
    ensures forall m, n :: m in all[..k] && n in all && n !in all[..k] ==> StrLe(m, n)
  {
    forall m, n | m in all[..k] && n in all && n !in all[..k] ensures StrLe(m, n) {
      var i :| 0 <= i < k && all[..k][i] == m;
      var j :| 0 <= j < |all| && all[j] == n;
      assert all[i] == m;
      assert j >= k;
    }
  }

  /** One item per name: the name, the category, and the name's path below `dir`. */
  function Entries(names: seq<string>, category: string, dir: seq<string>): (items: seq<Item>)
    ensures |items| == |names|
    ensures forall i :: 0 <= i < |items| ==> items[i] == Item(names[i], category, dir + [names[i]])
  {
    if |names| == 0 then [] else [Item(names[0], category, dir + [names[0]])] + Entries(names[1..], category, dir)
  }

  /** The names in the root listing that are directories, in sorted order. */
  function Subdirs(listing: seq<string>, nodes: map<string, Node>): (subdirs: seq<string>)
    ensures Sorted(subdirs)
    ensures forall d :: d in subdirs <==> d in listing && IsSubdir(nodes, d)
    ensures multiset(subdirs) <= multiset(listing)
  {
    var sorted := Sort(listing);
    var p := (d: string) => IsSubdir(nodes, d);
    FilterSorted(sorted, p);
    FilterMultiset(sorted, p);
    assert forall n :: n in sorted <==> n in listing by {
      assert forall n :: n in sorted <==> n in multiset(sorted);
      assert forall n :: n in listing <==> n in multiset(listing);
    }
    Filter(sorted, p)
  }

  /** The items the subdirectory loop appends, one capped block per subdirectory in order. */
  function SubdirItems(subdirs: seq<string>, nodes: map<string, Node>, cap: int): (items: seq<Item>)
    ensures forall i :: 0 <= i < |items| ==>
      items[i].category in subdirs && items[i].path == [items[i].category, items[i].filename]
  {
    if |subdirs| == 0 then []
    else
      var d := subdirs[0];
      var block := Entries(Block(Listing(nodes, d), cap), d, [d]);
      var rest := SubdirItems(subdirs[1..], nodes, cap);
      var items := block + rest;
      assert forall i :: 0 <= i < |items| ==>
        items[i].category in subdirs && items[i].path == [items[i].category, items[i].filename]
      by {
        forall i | 0 <= i < |items|
          ensures items[i].category in subdirs && items[i].path == [items[i].category, items[i].filename]
        {
          if i < |block| {
            assert items[i] == block[i];
          } else {
            assert items[i] == rest[i - |block|];
            assert rest[i - |block|].category in subdirs[1..];
          }
        }
      }
      items
  }

  /** `has_valid_subdirs`: some subdirectory lists a `.eml` name, whatever the cap. */
  predicate AnyEml(subdirs: seq<string>, nodes: map<string, Node>) {
    exists i :: 0 <= i < |subdirs| && EmlFiles(Listing(nodes, subdirs[i])) != []
  }

  /**
    `collect_eml_files(root, cap)`: nothing for a non-directory; the per-subdirectory blocks
    when some subdirectory has a `.eml` file; otherwise one `uncategorized` block of the
    root's own `.eml` files.
   */
  function CollectEmlFiles(root: Root, cap: int): (items: seq<Item>)
    ensures root.NotADirectory? ==> items == []
    ensures root.Directory? && AnyEml(Subdirs(root.listing, root.nodes), root.nodes) ==>
      forall i :: 0 <= i < |items| ==>
        && items[i].category in root.listing && IsSubdir(root.nodes, items[i].category)
        && items[i].path == [items[i].category, items[i].filename]
    ensures root.Directory? && !AnyEml(Subdirs(root.listing, root.nodes), root.nodes) ==>
      |items| == |Block(root.listing, cap)| &&
      forall i :: 0 <= i < |items| ==>
        items[i] == Item(Block(root.listing, cap)[i], Uncategorized, [Block(root.listing, cap)[i]])
  {
    match root
    case NotADirectory => []
    case Directory(listing, nodes) =>
      var subdirs := Subdirs(listing, nodes);
      if AnyEml(subdirs, nodes) then SubdirItems(subdirs, nodes, cap)
      else Entries(Block(listing, cap), Uncategorized, [])
  }

  // ---------------------------------------------------------------------------
  // Categories: order and contents

  /** The file names of the items in `category`, in order. */
  function NamesIn(items: seq<Item>, category: string): seq<string> {
    if |items| == 0 then []
    else (if items[0].category == category then [items[0].filename] else []) + NamesIn(items[1..], category)
  }

  lemma {:induction false} NamesInConcat(a: seq<Item>, b: seq<Item>, category: string)
    ensures NamesIn(a + b, category) == NamesIn(a, category) + NamesIn(b, category)
    decreases |a|
  {
    if |a| == 0 {
      assert a + b == b;
    } else {
      var ab := a + b;
      assert ab[0] == a[0] && ab[1..] == a[1..] + b;
      NamesInConcat(a[1..], b, category);
      var h := if a[0].category == category then [a[0].filename] else [];
      var na, nb := NamesIn(a[1..], category), NamesIn(b, category);
      assert NamesIn(ab, category) == h + (na + nb);
      assert h + (na + nb) == (h + na) + nb;
    }
  }

  lemma {:induction false} NamesInEntries(names: seq<string>, c: string, dir: seq<string>, category: string)
    ensures NamesIn(Entries(names, c, dir), category) == if c == category then names else []
    decreases |names|
  {
    if |names| > 0 {
      NamesInEntries(names[1..], c, dir, category);
      assert Entries(names, c, dir)[1..] == Entries(names[1..], c, dir);
      assert names == [names[0]] + names[1..];
    }
  }

  /**
    With distinct subdirectory names, the items of one subdirectory are exactly its capped
    block, and a name that is not a subdirectory has no items.
   */
  lemma {:induction false} NamesInSubdirItems(subdirs: seq<string>, nodes: map<string, Node>, cap: int, d: string)
    requires NoDuplicates(subdirs)
    ensures NamesIn(SubdirItems(subdirs, nodes, cap), d) ==
      if d in subdirs then Block(Listing(nodes, d), cap) else []
    decreases |subdirs|
  {
    if |subdirs| > 0 {
      var s := subdirs[0];
      var rest := subdirs[1..];
      assert subdirs == [s] + rest;
      NoDuplicatesTail(subdirs);
      NamesInSubdirItems(rest, nodes, cap, d);
      var block := Entries(Block(Listing(nodes, s), cap), s, [s]);
      NamesInConcat(block, SubdirItems(rest, nodes, cap), d);
      NamesInEntries(Block(Listing(nodes, s), cap), s, [s], d);
    }
  }

  /**
    Each category holds at most `cap` files, namely its lexicographically first `.eml`
    names (see `Block`), when the root's names are distinct as `os.listdir` gives them.
   */
  lemma CategoryIsBlock(root: Root, cap: int, d: string)
    requires root.Directory? && NoDuplicates(root.listing)
    requires AnyEml(Subdirs(root.listing, root.nodes), root.nodes)
    requires d in root.listing && IsSubdir(root.nodes, d)
    ensures NamesIn(CollectEmlFiles(root, cap), d) == Block(Listing(root.nodes, d), cap)
  {
    var subdirs := Subdirs(root.listing, root.nodes);
    assert NoDuplicates(subdirs) by {
      forall x ensures multiset(subdirs)[x] <= 1 {
        assert multiset(subdirs)[x] <= multiset(root.listing)[x];
      }
    }
    NamesInSubdirItems(subdirs, root.nodes, cap, d);
  }

  /** The categories of `items`, in order. */
  function Categories(items: seq<Item>): (cs: seq<string>)
    ensures |cs| == |items|
    ensures forall i :: 0 <= i < |cs| ==> cs[i] == items[i].category
  {
    if |items| == 0 then [] else [items[0].category] + Categories(items[1..])
  }

  lemma SameCategory(names: seq<string>, d: string)
    ensures Sorted(Categories(Entries(names, d, [d])))
  {
    StrLeTotal(d, d);
  }

  lemma LaterCategories(subdirs: seq<string>, nodes: map<string, Node>, cap: int)
    requires Sorted(subdirs) && |subdirs| > 0
    ensures var b := Categories(SubdirItems(subdirs[1..], nodes, cap));
      forall j :: 0 <= j < |b| ==> StrLe(subdirs[0], b[j])
  {
    var rest := SubdirItems(subdirs[1..], nodes, cap);
    var b := Categories(rest);
    forall j | 0 <= j < |b| ensures StrLe(subdirs[0], b[j]) {
      assert rest[j].category in subdirs[1..];
      var m :| 0 <= m < |subdirs[1..]| && subdirs[1..][m] == b[j];
      assert subdirs[m + 1] == b[j];
    }
  }

  lemma CategoriesConcat(a: seq<Item>, b: seq<Item>)
    ensures Categories(a + b) == Categories(a) + Categories(b)
  {
  }

  /** The categories of the subdirectory items follow the sorted subdirectory order. */
  lemma {:induction false} SubdirItemsOrdered(subdirs: seq<string>, nodes: map<string, Node>, cap: int)
    requires Sorted(subdirs)
    ensures Sorted(Categories(SubdirItems(subdirs, nodes, cap)))
    decreases |subdirs|
  {
    if |subdirs| > 0 {
      var d := subdirs[0];
      var block := Entries(Block(Listing(nodes, d), cap), d, [d]);
      var rest := SubdirItems(subdirs[1..], nodes, cap);
      SubdirItemsOrdered(subdirs[1..], nodes, cap);
      SameCategory(Block(Listing(nodes, d), cap), d);
      LaterCategories(subdirs, nodes, cap);
      var a := Categories(block);
      var b := Categories(rest);
      assert forall i :: 0 <= i < |a| ==> a[i] == d;
      SortedConcat(a, b);
      CategoriesConcat(block, rest);
    }
  }

  /** The located items are grouped by category, in sorted category order. */
  lemma CategoriesInOrder(root: Root, cap: int)
    ensures Sorted(Categories(CollectEmlFiles(root, cap)))
  {
    if root.Directory? {
      var subdirs := Subdirs(root.listing, root.nodes);
      if AnyEml(subdirs, root.nodes) {
        SubdirItemsOrdered(subdirs, root.nodes, cap);
      } else {
        StrLeTotal(Uncategorized, Uncategorized);
      }
    }
  }
}
