/**
 * The main window's bookkeeping: the most-recently-used file list, unique
 * chart titles for new tabs, the integer edit-mode codes pushed to every
 * chart tab, the rule that decides which action of the modes menu is
 * checked, the ordering and labelling of the pattern colours, and tab
 * removal.
 *
 * Widgets are left to Qt: a tab is the record of what the window pushes to
 * it, a menu action is its text, data and visibility, and a colour-list item
 * is its label and tool tip. Values the program reads from its settings or
 * from the file system (the maximum number of recent files, which files
 * exist, the colour prefix) are parameters.
 */
module MainWindow {
  import opened Wrappers
  import EditModes

  // ---------------------------------------------------------------------------
  // Decimal numbers and file names

  function Pow10(k: nat): (p: nat)
    ensures p >= 1
  {
    if k == 0 then 1 else 10 * Pow10(k - 1)
  }

  /** The character of a decimal digit. */
  function Digit(d: nat): (c: char)
    requires d < 10
    ensures '0' <= c <= '9'
    ensures c as int - '0' as int == d
  {
    ('0' as int + d) as char
  }

  /** The decimal text of n, as the program's number-to-string conversion writes it. */
  function NumberString(n: nat): (s: string)
    ensures |s| >= 1
    ensures |s| == 1 <==> n < 10
    ensures forall i :: 0 <= i < |s| ==> '0' <= s[i] <= '9'
  {
    if n < 10 then [Digit(n)] else NumberString(n / 10) + [Digit(n % 10)]
  }

  /** A number written with at most k digits is below 10^k. */
  lemma {:induction false} NumberStringShort(n: nat, k: nat)
    requires |NumberString(n)| <= k
    ensures n < Pow10(k)
  {
    if n >= 10 {
      NumberStringShort(n / 10, k - 1);
    }
  }

  /** A base name followed by a number, the form of a generated chart title. */
  function Numbered(baseName: string, n: nat): string
  {
    baseName + NumberString(n)
  }

  /** Distinct numbers have distinct decimal texts. */
  lemma {:induction false} NumberStringInjective(n: nat, m: nat)
    requires NumberString(n) == NumberString(m)
    ensures n == m
  {
    var s := NumberString(n);
    if n >= 10 && m >= 10 {
      assert NumberString(n / 10) == s[..|s| - 1] == NumberString(m / 10);
      NumberStringInjective(n / 10, m / 10);
      assert Digit(n % 10) == s[|s| - 1] == Digit(m % 10);
    } else if n < 10 && m < 10 {
      assert Digit(n) == s[0] == Digit(m);
    }
  }

  /** A base name followed by different numbers gives different titles. */
  lemma NumberedInjective(baseName: string, n: nat, m: nat)
    requires Numbered(baseName, n) == Numbered(baseName, m)
    ensures n == m
  {
    var a := Numbered(baseName, n);
    assert NumberString(n) == a[|baseName|..] == NumberString(m);
    NumberStringInjective(n, m);
  }

  /** A taken title made of a base name and a number bounds that number: titles are finitely many and finitely long. */
  lemma TakenNameBound(baseName: string, n: nat, ts: seq<string>)
    requires Numbered(baseName, n) in ts
    ensures n < Pow10(MaxLength(ts))
  {
    var t :| 0 <= t < |ts| && ts[t] == baseName + NumberString(n);
    assert |NumberString(n)| <= MaxLength(ts);
    NumberStringShort(n, MaxLength(ts));
  }

  /** The index of the last '/' in path, or -1 when it holds none. */
  function LastSlash(path: string): (r: int)
    ensures -1 <= r < |path|
  {
    if path == [] then -1
    else if path[|path| - 1] == '/' then |path| - 1
    else LastSlash(path[..|path| - 1])
  }

  /** The last component of a path: what follows its last '/'. */
  function FileName(path: string): string
  {
    path[LastSlash(path) + 1..]
  }

  /** The file name is the suffix of the path after its last '/', and holds no '/' itself. */
  lemma {:induction false} FileNameSpec(path: string)
    ensures var name := FileName(path);
      && |name| <= |path|
      && name == path[|path| - |name|..]
      && '/' !in name
      && (|name| < |path| ==> path[|path| - |name| - 1] == '/')
  {
    if path != [] && path[|path| - 1] != '/' {
      var init := path[..|path| - 1];
      FileNameSpec(init);
      assert FileName(path) == FileName(init) + [path[|path| - 1]];
    }
  }

  // ---------------------------------------------------------------------------
  // The recent-files list

  /** s without any occurrence of f, the other entries in their order. */
  function RemoveAll(s: seq<string>, f: string): (r: seq<string>)
    ensures f !in r
    ensures |r| <= |s|
  {
    if s == [] then []
    else if s[0] == f then RemoveAll(s[1..], f)
    else [s[0]] + RemoveAll(s[1..], f)
  }

  /** Every other entry keeps its number of occurrences. */
  lemma {:induction false} RemoveAllCount(s: seq<string>, f: string, x: string)
    ensures multiset(RemoveAll(s, f))[x] == if x == f then 0 else multiset(s)[x]
  {
    if s != [] {
      RemoveAllCount(s[1..], f, x);
      assert s == [s[0]] + s[1..];
    }
  }

  /** Removal works piece by piece, so the entries that stay keep their relative order. */
  lemma {:induction false} RemoveAllConcat(a: seq<string>, b: seq<string>, f: string)
    ensures RemoveAll(a + b, f) == RemoveAll(a, f) + RemoveAll(b, f)
  {
    if a != [] {
      assert (a + b)[0] == a[0] && (a + b)[1..] == a[1..] + b;
      RemoveAllConcat(a[1..], b, f);
      if a[0] != f {
        assert RemoveAll(a + b, f) == [a[0]] + (RemoveAll(a[1..], f) + RemoveAll(b, f));
      }
    } else {
      assert a + b == b;
    }
  }

  /** The list after a file is opened or saved: f in front, its older occurrences gone. */
  function Prepended(s: seq<string>, f: string): (r: seq<string>)
    ensures |r| >= 1 && r[0] == f && f !in r[1..]
    ensures |r| <= |s| + 1
  {
    [f] + RemoveAll(s, f)
  }

  /** The opened file is first and listed exactly once; every other entry keeps its count. */
  lemma PrependedFront(s: seq<string>, f: string)
    ensures multiset(Prepended(s, f))[f] == 1
    ensures forall x :: x != f ==> multiset(Prepended(s, f))[x] == multiset(s)[x]
  {
    RemoveAllCount(s, f, f);
    forall x | x != f
      ensures multiset(Prepended(s, f))[x] == multiset(s)[x]
    {
      RemoveAllCount(s, f, x);
    }
  }

  /** The files of s that exist, in the order of s. */
  function ExistingOf(s: seq<string>, existing: set<string>): (r: seq<string>)
    ensures |r| <= |s|
    ensures forall i :: 0 <= i < |r| ==> r[i] in existing && r[i] in s
  {
    if s == [] then []
    else
      var r := ExistingOf(s[..|s| - 1], existing);
      if s[|s| - 1] in existing then r + [s[|s| - 1]] else r
  }

  /** Existing files are kept as often as they occur, missing ones never. */
  lemma {:induction false} ExistingOfCount(s: seq<string>, existing: set<string>, x: string)
    ensures multiset(ExistingOf(s, existing))[x] == if x in existing then multiset(s)[x] else 0
  {
    if s != [] {
      ExistingOfCount(s[..|s| - 1], existing, x);
      assert s == s[..|s| - 1] + [s[|s| - 1]];
    }
  }

  /** The filter works piece by piece: the kept files keep their relative order. */
  lemma {:induction false} ExistingOfConcat(a: seq<string>, b: seq<string>, existing: set<string>)
    ensures ExistingOf(a + b, existing) == ExistingOf(a, existing) + ExistingOf(b, existing)
  {
    if b != [] {
      assert (a + b)[..|a + b| - 1] == a + b[..|b| - 1];
      ExistingOfConcat(a, b[..|b| - 1], existing);
    } else {
      assert a + b == a;
    }
  }

  /** How many files the rebuilt list may hold: at least one, even for a maximum below one. */
  function Capacity(maxRecent: int): (n: nat)
    ensures n >= 1 && n >= maxRecent
  {
    if maxRecent < 1 then 1 else maxRecent
  }

  /** The rebuilt recent-files list: the first existing files of the old list, up to the capacity. */
  function RecentList(s: seq<string>, existing: set<string>, maxRecent: int): (r: seq<string>)
    ensures |r| <= Capacity(maxRecent)
    ensures forall i :: 0 <= i < |r| ==> r[i] in existing && r[i] in s
  {
    var f := ExistingOf(s, existing);
    if |f| <= Capacity(maxRecent) then f else f[..Capacity(maxRecent)]
  }

  /**
   * The rebuilt list holds only existing files, in the order of the old list,
   * never more than the maximum (one when the maximum is below one), and
   * nothing is dropped while there is room.
   */
  lemma RecentListSpec(s: seq<string>, existing: set<string>, maxRecent: int)
    ensures var r := RecentList(s, existing, maxRecent);
      && r == ExistingOf(s, existing)[..|r|]
      && (|r| < Capacity(maxRecent) ==> r == ExistingOf(s, existing))
  {
  }

  /** When one file of the old list still exists, the rebuilt list is not empty. */
  lemma RecentListNonEmpty(s: seq<string>, existing: set<string>, maxRecent: int, i: nat)
    requires i < |s| && s[i] in existing
    ensures |RecentList(s, existing, maxRecent)| >= 1
  {
    assert s == s[..i] + [s[i]] + s[i + 1..];
    ExistingOfConcat(s[..i] + [s[i]], s[i + 1..], existing);
    ExistingOfConcat(s[..i], [s[i]], existing);
    assert ExistingOf([s[i]], existing) == [s[i]];
  }

  /** A menu action of the recent-files menu: its text, the file it opens, whether it is shown. */
  datatype RecentAction = RecentAction(text: string, data: string, visible: bool)

  /** The action for the i-th (0-based) file of the list. */
  function RecentActionFor(i: nat, file: string, maxRecent: int): RecentAction
  {
    RecentAction("&" + NumberString(i + 1) + " " + FileName(file), file, i < maxRecent)
  }

  /** Every action of a rebuilt list is shown unless the maximum is below one. */
  lemma RecentActionsVisible(s: seq<string>, existing: set<string>, maxRecent: int, i: nat)
    requires i < |RecentList(s, existing, maxRecent)|
    ensures var a := RecentActionFor(i, RecentList(s, existing, maxRecent)[i], maxRecent);
      a.visible <==> maxRecent >= 1
  {
  }

  /**
   * The first loop of the recent-files rebuild: walk the old list, keep the
   * files that exist, and stop as soon as the count reaches the maximum.
   */
  method KeepExisting(list: seq<string>, existing: set<string>, maxRecent: int) returns (files: seq<string>)
    ensures files == RecentList(list, existing, maxRecent)
  {
    files := [];
    var i := 0;
    var k := 0;
    while k < |list|
      invariant 0 <= k <= |list|
      invariant files == ExistingOf(list[..k], existing)
      invariant i == |files| < Capacity(maxRecent)
    {
      assert list[..k + 1][..k] == list[..k];
      if list[k] in existing {
        files := files + [list[k]];
        i := i + 1;
        if i >= maxRecent {
          assert files == ExistingOf(list[..k + 1], existing) && |files| == Capacity(maxRecent);
          assert list == list[..k + 1] + list[k + 1..];
          ExistingOfConcat(list[..k + 1], list[k + 1..], existing);
          return;
        }
      }
      k := k + 1;
    }
    assert list[..k] == list;
  }

  /** The actions of the recent-files menu for a list of files: the k-th opens files[k]. */
  function RecentMenu(files: seq<string>, maxRecent: int): (acts: seq<RecentAction>)
    ensures |acts| == |files|
  {
    if files == [] then []
    else RecentMenu(files[..|files| - 1], maxRecent) + [RecentActionFor(|files| - 1, files[|files| - 1], maxRecent)]
  }

  /** The k-th action of the menu is the one for the k-th file. */
  lemma {:induction false} RecentMenuAt(files: seq<string>, maxRecent: int, k: nat)
    requires k < |files|
    ensures RecentMenu(files, maxRecent)[k] == RecentActionFor(k, files[k], maxRecent)
  {
    if k < |files| - 1 {
      RecentMenuAt(files[..|files| - 1], maxRecent, k);
    }
  }

  /** The second loop of the rebuild: one action per kept file, numbered from 1. */
  method RecentActions(files: seq<string>, maxRecent: int) returns (acts: seq<RecentAction>)
    ensures acts == RecentMenu(files, maxRecent)
  {
    acts := [];
    var i := 0;
    while i < |files|
      invariant 0 <= i <= |files|
      invariant acts == RecentMenu(files[..i], maxRecent)
    {
      assert files[..i + 1][..i] == files[..i];
      acts := acts + [RecentActionFor(i, files[i], maxRecent)];
      i := i + 1;
    }
    assert files[..i] == files;
  }

  // ---------------------------------------------------------------------------
  // The modes menu

  /** The first k in [from, to) with en[k], if any. */
  function FirstEnabled(en: seq<bool>, from: nat, to: nat): (r: Option<nat>)
    requires to <= |en|
    ensures r.Some? ==> from <= r.value < to && en[r.value]
    ensures r.Some? ==> forall k :: from <= k < r.value ==> !en[k]
    ensures r.None? ==> forall k :: from <= k < to ==> !en[k]
  {
    if to <= from then None
    else
      var f := FirstEnabled(en, from, to - 1);
      if f.Some? then f else if en[to - 1] then Some(to - 1) else None
  }

  // ---------------------------------------------------------------------------
  // Pattern colours

  /** A colour used in the charts and the time it was first added. */
  datatype Swatch = Swatch(color: string, added: int)

  /** An item of the pattern-colour list: its text and its tool tip. */
  datatype ColorItem = ColorItem(text: string, toolTip: string)

  predicate SortedByAdded(s: seq<Swatch>)
  {
    forall i, j :: 0 <= i < j < |s| ==> s[i].added <= s[j].added
  }

  /**
   * Insertion into a map keyed by the added time, as the program does it: a
   * swatch whose time is already a key replaces the swatch stored there.
   */
  function KeyedInsert(t: seq<Swatch>, s: Swatch): (r: seq<Swatch>)
    ensures |r| <= |t| + 1 && s in r
    ensures forall x :: x in r ==> x in t || x == s
  {
    if t == [] then [s]
    else if s.added < t[0].added then [s] + t
    else if s.added == t[0].added then [s] + t[1..]
    else [t[0]] + KeyedInsert(t[1..], s)
  }

  /** Added times strictly ascending: the order of a map's keys, with no key twice. */
  predicate StrictlyByAdded(s: seq<Swatch>)
  {
    forall i, j :: 0 <= i < j < |s| ==> s[i].added < s[j].added
  }

  /** Keyed insertion keeps the keys strictly ascending. */
  lemma {:induction false} KeyedInsertStrict(t: seq<Swatch>, s: Swatch)
    requires StrictlyByAdded(t)
    ensures StrictlyByAdded(KeyedInsert(t, s))
  {
    if t != [] && s.added > t[0].added {
      var rest := KeyedInsert(t[1..], s);
      assert StrictlyByAdded(t[1..]);
      KeyedInsertStrict(t[1..], s);
      var r := [t[0]] + rest;
      forall i, j | 0 <= i < j < |r|
        ensures r[i].added < r[j].added
      {
        assert r[j] == rest[j - 1];
        assert r[j] in t[1..] || r[j] == s;
        if i > 0 {
          assert r[i] == rest[i - 1];
        }
      }
    } else if t != [] && s.added < t[0].added {
      var r := [s] + t;
      forall i, j | 0 <= i < j < |r|
        ensures r[i].added < r[j].added
      {
        assert r[j] == t[j - 1];
        if i > 0 {
          assert r[i] == t[i - 1];
        }
      }
    } else if t != [] {
      var r := [s] + t[1..];
      forall i, j | 0 <= i < j < |r|
        ensures r[i].added < r[j].added
      {
        assert r[j] == t[j];
        if i > 0 {
          assert r[i] == t[i];
        }
      }
    }
  }

  /**
   * The colours keyed by their added time, as the program collects them (before
   * the fix): at most one colour per added time, in strictly ascending order,
   * each one of the input colours.
   */
  function KeyedByAdded(ss: seq<Swatch>): (r: seq<Swatch>)
    ensures StrictlyByAdded(r) && |r| <= |ss|
    ensures forall x :: x in r ==> x in ss
  {
    if ss == [] then []
    else
      var init := KeyedByAdded(ss[..|ss| - 1]);
      KeyedInsertStrict(init, ss[|ss| - 1]);
      KeyedInsert(init, ss[|ss| - 1])
  }

  /** Two colours added at the same time: keyed by time, only the later one survives. */
  lemma KeyedByAddedDropsColor()
    ensures var ss := [Swatch("#000000", 5), Swatch("#ff0000", 5)];
      KeyedByAdded(ss) == [Swatch("#ff0000", 5)]
  {
    var ss := [Swatch("#000000", 5), Swatch("#ff0000", 5)];
    assert ss[..1] == [Swatch("#000000", 5)];
    assert ss[..1][..0] == [];
  }

  /** Stable insertion into a list sorted by added time: s goes after every swatch not later than it. */
  function StableInsert(t: seq<Swatch>, s: Swatch): seq<Swatch>
  {
    if t == [] then [s]
    else if s.added < t[0].added then [s] + t
    else [t[0]] + StableInsert(t[1..], s)
  }

  /** Stable insertion adds exactly s. */
  lemma {:induction false} StableInsertCount(t: seq<Swatch>, s: Swatch)
    ensures multiset(StableInsert(t, s)) == multiset(t) + multiset{s}
  {
    if t != [] && s.added >= t[0].added {
      var rest := StableInsert(t[1..], s);
      StableInsertCount(t[1..], s);
      assert t == [t[0]] + t[1..];
      assert multiset(t) == multiset{t[0]} + multiset(t[1..]);
      assert multiset([t[0]] + rest) == multiset{t[0]} + multiset(rest);
    }
  }

  /** A bound below every added time of t and of s stays below every added time after the insertion. */
  lemma {:induction false} StableInsertBound(t: seq<Swatch>, s: Swatch, lo: int)
    requires forall k :: 0 <= k < |t| ==> lo <= t[k].added
    requires lo <= s.added
    ensures forall k :: 0 <= k < |StableInsert(t, s)| ==> lo <= StableInsert(t, s)[k].added
  {
    if t != [] && s.added >= t[0].added {
      StableInsertBound(t[1..], s, lo);
    }
  }

  /** Stable insertion keeps a list sorted by added time. */
  lemma {:induction false} StableInsertSorted(t: seq<Swatch>, s: Swatch)
    requires SortedByAdded(t)
    ensures SortedByAdded(StableInsert(t, s))
  {
    if t != [] && s.added >= t[0].added {
      var rest := StableInsert(t[1..], s);
      assert SortedByAdded(t[1..]);
      StableInsertSorted(t[1..], s);
      StableInsertBound(t[1..], s, t[0].added);
      var r := [t[0]] + rest;
      forall i, j | 0 <= i < j < |r|
        ensures r[i].added <= r[j].added
      {
        assert r[j] == rest[j - 1];
        if i > 0 {
          assert r[i] == rest[i - 1];
        }
      }
    } else if t != [] {
      var r := [s] + t;
      forall i, j | 0 <= i < j < |r|
        ensures r[i].added <= r[j].added
      {
        assert r[j] == t[j - 1];
        if i > 0 {
          assert r[i] == t[i - 1];
        }
      }
    }
  }

  /** The pattern colours in order of their added time, none lost (ties keep their order). */
  function ByAdded(ss: seq<Swatch>): (r: seq<Swatch>)
    ensures SortedByAdded(r)
    ensures multiset(r) == multiset(ss)
  {
    if ss == [] then []
    else
      assert ss == ss[..|ss| - 1] + [ss[|ss| - 1]];
      StableInsertCount(ByAdded(ss[..|ss| - 1]), ss[|ss| - 1]);
      StableInsertSorted(ByAdded(ss[..|ss| - 1]), ss[|ss| - 1]);
      StableInsert(ByAdded(ss[..|ss| - 1]), ss[|ss| - 1])
  }

  predicate DistinctAdded(ss: seq<Swatch>)
  {
    forall i, j :: 0 <= i < j < |ss| ==> ss[i].added != ss[j].added
  }

  /** Where no two colours share an added time, both insertions agree. */
  lemma {:induction false} KeyedInsertStable(t: seq<Swatch>, s: Swatch)
    requires forall k :: 0 <= k < |t| ==> t[k].added != s.added
    ensures KeyedInsert(t, s) == StableInsert(t, s)
    ensures forall x :: x in KeyedInsert(t, s) ==> x in t || x == s
  {
    if t != [] && s.added > t[0].added {
      KeyedInsertStable(t[1..], s);
    }
  }

  /** Where no two colours share an added time, the program's order is the corrected one. */
  lemma {:induction false} KeyedByAddedAgrees(ss: seq<Swatch>)
    requires DistinctAdded(ss)
    ensures KeyedByAdded(ss) == ByAdded(ss)
    ensures forall x :: x in KeyedByAdded(ss) ==> x in ss
  {
    if ss != [] {
      var init := ss[..|ss| - 1];
      var s := ss[|ss| - 1];
      assert DistinctAdded(init);
      KeyedByAddedAgrees(init);
      forall k | 0 <= k < |KeyedByAdded(init)|
        ensures KeyedByAdded(init)[k].added != s.added
      {
        assert KeyedByAdded(init)[k] in init;
      }
      KeyedInsertStable(KeyedByAdded(init), s);
    }
  }

  /** Whether c is the label of one of the first n items: prefix followed by one of 1..n. */
  predicate IsLabel(c: string, prefix: string, n: nat)
  {
    exists j :: 1 <= j <= n && c == Numbered(prefix, j)
  }

  /** Whether c reads like an item label: prefix followed by a number from 1 up. */
  ghost predicate LooksLikeLabel(c: string, prefix: string)
  {
    exists n :: n >= 1 && c == Numbered(prefix, n)
  }

  /**
   * The swatches that get an item: a colour is skipped when the list already
   * holds an item whose text equals it.
   */
  function Kept(ss: seq<Swatch>, prefix: string): (r: seq<Swatch>)
    ensures |r| <= |ss|
  {
    if ss == [] then []
    else
      var r := Kept(ss[..|ss| - 1], prefix);
      if IsLabel(ss[|ss| - 1].color, prefix, |r|) then r else r + [ss[|ss| - 1]]
  }

  /** The kept swatches come from the input. */
  lemma {:induction false} KeptSub(ss: seq<Swatch>, prefix: string)
    ensures multiset(Kept(ss, prefix)) <= multiset(ss)
  {
    if ss != [] {
      assert ss == ss[..|ss| - 1] + [ss[|ss| - 1]];
      KeptSub(ss[..|ss| - 1], prefix);
    }
  }

  /** The kept swatches keep the input's order, so a sorted input stays sorted. */
  lemma {:induction false} KeptSorted(ss: seq<Swatch>, prefix: string)
    requires SortedByAdded(ss)
    ensures SortedByAdded(Kept(ss, prefix))
  {
    if ss != [] {
      var init := ss[..|ss| - 1];
      var last := ss[|ss| - 1];
      KeptSorted(init, prefix);
      KeptSub(init, prefix);
      var k := Kept(init, prefix);
      forall i | 0 <= i < |k|
        ensures k[i].added <= last.added
      {
        assert k[i] in multiset(init);
      }
    }
  }

  /** The items for the kept swatches: labels prefix+1, prefix+2, ..., tool tip the colour. */
  function Labelled(kept: seq<Swatch>, prefix: string): (items: seq<ColorItem>)
    ensures |items| == |kept|
  {
    seq(|kept|, j requires 0 <= j < |kept| => ColorItem(Numbered(prefix, j + 1), kept[j].color))
  }

  function Labels(items: seq<ColorItem>): (ls: seq<string>)
    ensures |ls| == |items|
  {
    seq(|items|, j requires 0 <= j < |items| => items[j].text)
  }

  /** A colour is among the texts of the listed items exactly when it is the label of one of them. */
  lemma LabelsOfLabelled(kept: seq<Swatch>, prefix: string, c: string)
    ensures c in Labels(Labelled(kept, prefix)) <==> IsLabel(c, prefix, |kept|)
  {
    var ls := Labels(Labelled(kept, prefix));
    if c in ls {
      var j :| 0 <= j < |ls| && ls[j] == c;
      assert c == Numbered(prefix, j + 1);
    }
    if IsLabel(c, prefix, |kept|) {
      var j :| 1 <= j <= |kept| && c == Numbered(prefix, j);
      assert ls[j - 1] == c;
    }
  }

  /**
   * The colours that get a pattern-colour item come in ascending order of
   * their added times and are drawn from the pattern colours; when no colour
   * reads like one of the labels, every colour is listed.
   */
  lemma PatternColorList(ss: seq<Swatch>, prefix: string)
    ensures SortedByAdded(Kept(ByAdded(ss), prefix))
    ensures multiset(Kept(ByAdded(ss), prefix)) <= multiset(ss)
    ensures (forall k :: 0 <= k < |ss| ==> !LooksLikeLabel(ss[k].color, prefix)) ==>
      multiset(Kept(ByAdded(ss), prefix)) == multiset(ss)
  {
    KeptOfSorted(ByAdded(ss), ss, prefix);
  }

  /**
   * Any list sorted by added time that is a permutation of the colours keeps
   * its order through the skipping of label-like colours, and loses nothing
   * when no colour reads like a label.
   */
  lemma KeptOfSorted(sorted: seq<Swatch>, ss: seq<Swatch>, prefix: string)
    requires SortedByAdded(sorted)
    requires multiset(sorted) == multiset(ss)
    ensures SortedByAdded(Kept(sorted, prefix))
    ensures multiset(Kept(sorted, prefix)) <= multiset(ss)
    ensures (forall k :: 0 <= k < |ss| ==> !LooksLikeLabel(ss[k].color, prefix)) ==>
      Kept(sorted, prefix) == sorted
  {
    KeptSub(sorted, prefix);
    KeptSorted(sorted, prefix);
    if forall k :: 0 <= k < |ss| ==> !LooksLikeLabel(ss[k].color, prefix) {
      KeptAll(sorted, prefix, ss);
    }
  }

  /** With no colour reading like a label, every swatch is kept. */
  lemma {:induction false} KeptAll(sorted: seq<Swatch>, prefix: string, ss: seq<Swatch>)
    requires multiset(sorted) <= multiset(ss)
    requires forall k :: 0 <= k < |ss| ==> !LooksLikeLabel(ss[k].color, prefix)
    ensures Kept(sorted, prefix) == sorted
  {
    if sorted != [] {
      var init := sorted[..|sorted| - 1];
      var last := sorted[|sorted| - 1];
      assert sorted == init + [last];
      assert multiset(init) <= multiset(ss);
      KeptAll(init, prefix, ss);
      assert last in multiset(ss);
      var k :| 0 <= k < |ss| && ss[k] == last;
      assert !IsLabel(last.color, prefix, |Kept(init, prefix)|);
    }
  }

  /** Labelling one more swatch appends its item, numbered one past the others. */
  lemma LabelledSnoc(kept: seq<Swatch>, x: Swatch, prefix: string)
    ensures Labelled(kept + [x], prefix) == Labelled(kept, prefix) + [ColorItem(Numbered(prefix, |kept| + 1), x.color)]
  {
    var l := Labelled(kept + [x], prefix);
    var r := Labelled(kept, prefix) + [ColorItem(Numbered(prefix, |kept| + 1), x.color)];
    forall j | 0 <= j < |l|
      ensures l[j] == r[j]
    {
      if j < |kept| {
        assert (kept + [x])[j] == kept[j];
      }
    }
  }

  /** The loop that fills the pattern-colour list, proved against Kept and Labelled. */
  method ListColors(sorted: seq<Swatch>, prefix: string) returns (items: seq<ColorItem>)
    ensures items == Labelled(Kept(sorted, prefix), prefix)
  {
    items := [];
    var i := 1;
    var k := 0;
    while k < |sorted|
      invariant 0 <= k <= |sorted|
      invariant items == Labelled(Kept(sorted[..k], prefix), prefix)
      invariant i == |items| + 1
    {
      var color := sorted[k].color;
      ghost var kept := Kept(sorted[..k], prefix);
      assert sorted[..k + 1][..k] == sorted[..k];
      assert Kept(sorted[..k + 1], prefix) == if IsLabel(color, prefix, |kept|) then kept else kept + [sorted[k]];
      LabelsOfLabelled(kept, prefix, color);
      if color !in Labels(items) {
        LabelledSnoc(kept, sorted[k], prefix);
        items := items + [ColorItem(Numbered(prefix, i), color)];
        i := i + 1;
      }
      k := k + 1;
    }
    assert sorted[..k] == sorted;
  }

  /** The loop that collects the pattern colours in order of their added time. */
  method SortByAdded(ss: seq<Swatch>) returns (sorted: seq<Swatch>)
    ensures sorted == ByAdded(ss)
  {
    sorted := [];
    var k := 0;
    while k < |ss|
      invariant 0 <= k <= |ss|
      invariant sorted == ByAdded(ss[..k])
    {
      assert ss[..k + 1][..k] == ss[..k];
      sorted := StableInsert(sorted, ss[k]);
      k := k + 1;
    }
    assert ss[..k] == ss;
  }

  // ---------------------------------------------------------------------------
  // Tabs

  /**
   * A tab of the tab widget: its title, whether it is a chart tab, and the
   * edit settings the window has pushed to it.
   */
  datatype Tab = Tab(title: string, isChart: bool, editMode: int, editStitch: string,
                     fgColor: string, bgColor: string)

  function Titles(tabs: seq<Tab>): (ts: seq<string>)
    ensures |ts| == |tabs|
    ensures forall i :: 0 <= i < |tabs| ==> ts[i] == tabs[i].title
  {
    seq(|tabs|, i requires 0 <= i < |tabs| => tabs[i].title)
  }

  /**
   * Whether name is the title a new chart gets from baseName among the titles
   * ts: baseName itself when it is free, otherwise baseName followed by the
   * smallest number from 1 up that is free.
   */
  ghost predicate IsNextName(ts: seq<string>, baseName: string, name: string)
  {
    && name !in ts
    && (baseName !in ts ==> name == baseName)
    && (baseName in ts ==>
          exists k :: k >= 1 && name == Numbered(baseName, k) &&
            forall j :: 1 <= j < k ==> Numbered(baseName, j) in ts)
  }

  /** The next name is determined by the titles and the base name. */
  lemma NextNameUnique(ts: seq<string>, baseName: string, n1: string, n2: string)
    requires IsNextName(ts, baseName, n1) && IsNextName(ts, baseName, n2)
    ensures n1 == n2
  {
    if baseName in ts {
      var k1 :| k1 >= 1 && n1 == Numbered(baseName, k1) &&
        forall j :: 1 <= j < k1 ==> Numbered(baseName, j) in ts;
      var k2 :| k2 >= 1 && n2 == Numbered(baseName, k2) &&
        forall j :: 1 <= j < k2 ==> Numbered(baseName, j) in ts;
    }
  }

  /** With a tab titled "A", a new chart asked to be "A" gets "A1" and nothing else. */
  lemma NextNameExample()
    ensures IsNextName(["A"], "A", "A1")
    ensures forall n :: IsNextName(["A"], "A", n) ==> n == "A1"
  {
    assert NumberString(1) == "1";
    assert Numbered("A", 1) == "A1";
    forall n | IsNextName(["A"], "A", n)
      ensures n == "A1"
    {
      NextNameUnique(["A"], "A", n, "A1");
    }
  }

  /** A taken base name leads to a non-empty title. */
  lemma NextNameNonEmpty(ts: seq<string>, baseName: string, name: string)
    requires IsNextName(ts, baseName, name) && baseName in ts
    ensures name != ""
  {
    var k :| k >= 1 && name == Numbered(baseName, k) &&
      forall j :: 1 <= j < k ==> Numbered(baseName, j) in ts;
    assert |NumberString(k)| >= 1;
  }

  /** The length of the longest title. */
  function MaxLength(ts: seq<string>): (m: nat)
    ensures forall i :: 0 <= i < |ts| ==> |ts[i]| <= m
  {
    if ts == [] then 0
    else
      var m := MaxLength(ts[1..]);
      assert forall i :: 1 <= i < |ts| ==> ts[i] == ts[1..][i - 1];
      if |ts[0]| > m then |ts[0]| else m
  }

  /** One setting the window pushes to every chart tab. */
  datatype TabSetting =
    | ModeSetting(mode: int)
    | StitchSetting(stitch: string)
    | FgSetting(fg: string)
    | BgSetting(bg: string)

  function Apply(t: Tab, s: TabSetting): Tab
  {
    match s
    case ModeSetting(m) => t.(editMode := m)
    case StitchSetting(st) => t.(editStitch := st)
    case FgSetting(c) => t.(fgColor := c)
    case BgSetting(c) => t.(bgColor := c)
  }

  /** `after` is `before` with s pushed to every chart tab and every other tab untouched. */
  ghost predicate PushedTo(before: seq<Tab>, after: seq<Tab>, s: TabSetting)
  {
    |after| == |before| &&
    forall i :: 0 <= i < |before| ==> after[i] == if before[i].isChart then Apply(before[i], s) else before[i]
  }

  /** After a mode is pushed, every chart tab has that mode and every title is unchanged. */
  lemma PushedModeAgrees(before: seq<Tab>, after: seq<Tab>, mode: int)
    requires PushedTo(before, after, ModeSetting(mode))
    ensures Titles(after) == Titles(before)
    ensures forall i :: 0 <= i < |after| ==> after[i].isChart ==> after[i].editMode == mode
    ensures forall i :: 0 <= i < |after| ==> !after[i].isChart ==> after[i] == before[i]
  {
  }

  /** The action group's index of an action that carries a mode (the action of code 10 is index 0). */
  function GroupIndex(code: int): (k: nat)
    requires EditModes.StitchMode <= code <= EditModes.StretchMode
    ensures k < 6 && EditModes.GroupActions[k] == EditModes.ActionForCode(code)
  {
    code - EditModes.StitchMode
  }

  // ---------------------------------------------------------------------------
  // The window

  class Window {
    /** The recent-files list kept in the settings. */
    var recentFiles: seq<string>
    var recentActs: seq<RecentAction>
    var tabs: seq<Tab>
    var editMode: int
    var stitch: string
    var fgColor: string
    var bgColor: string
    /** The texts of the six actions of the mode group, in group order. */
    var modeTexts: seq<string>
    var modeEnabled: seq<bool>
    /** The group's checked action, by its index in the group. */
    var checkedMode: Option<nat>
    var colorItems: seq<ColorItem>
    var closed: bool
    var modified: bool

    ghost predicate Valid()
      reads this
    {
      |modeTexts| == 6 && |modeEnabled| == 6 &&
      (checkedMode.Some? ==> checkedMode.value < 6)
    }

    /** A new window: stitch mode, the "ch" stitch, black on white, no tabs. */
    constructor (recent: seq<string>, texts: seq<string>)
      requires |texts| == 6
      ensures Valid()
      ensures recentFiles == recent && recentActs == [] && tabs == []
      ensures editMode == EditModes.StitchMode && stitch == "ch"
      ensures fgColor == "#000000" && bgColor == "#ffffff"
      ensures modeTexts == texts && modeEnabled == [true, true, true, true, true, true]
      ensures checkedMode == None && colorItems == [] && !closed && !modified
    {
      recentFiles := recent;
      recentActs := [];
      tabs := [];
      editMode := EditModes.StitchMode;
      stitch := "ch";
      fgColor := "#000000";
      bgColor := "#ffffff";
      modeTexts := texts;
      modeEnabled := [true, true, true, true, true, true];
      checkedMode := None;
      colorItems := [];
      closed := false;
      modified := false;
    }

    // -- Recent files

    /** Puts f in front of the recent-files list and drops its older occurrences. */
    method AddToRecentFiles(f: string)
      modifies this`recentFiles
      ensures recentFiles == Prepended(old(recentFiles), f)
    {
      if f in recentFiles {
        recentFiles := RemoveAll(recentFiles, f);
      } else {
        assert RemoveAll(recentFiles, f) == recentFiles by {
          RemoveAllAbsent(recentFiles, f);
        }
      }
      recentFiles := [f] + recentFiles;
    }

    /**
     * Rebuilds the recent-files menu: the files of the list that exist, up to
     * the maximum, one action each, and the list written back.
     */
    method SetupRecentFiles(existing: set<string>, maxRecent: int)
      modifies this`recentFiles, this`recentActs
      ensures recentFiles == RecentList(old(recentFiles), existing, maxRecent)
      ensures recentActs == RecentMenu(recentFiles, maxRecent)
    {
      var files := KeepExisting(recentFiles, existing, maxRecent);
      recentActs := RecentActions(files, maxRecent);
      recentFiles := files;
    }

    // -- Chart names

    /** Whether some tab already has the given title. */
    method DocHasChartName(name: string) returns (b: bool)
      ensures b <==> name in Titles(tabs)
    {
      var i := 0;
      while i < |tabs|
        invariant 0 <= i <= |tabs|
        invariant forall k :: 0 <= k < i ==> tabs[k].title != name
      {
        if tabs[i].title == name {
          return true;
        }
        i := i + 1;
      }
      return false;
    }

    /**
     * A title no tab has: the base name itself when it is free, otherwise the
     * base name followed by the smallest number from 1 up that gives a free title.
     */
    method NextChartName(baseName: string) returns (name: string)
      ensures IsNextName(Titles(tabs), baseName, name)
    {
      ghost var ts := Titles(tabs);
      ghost var bound := Pow10(MaxLength(ts));
      name := baseName;
      var i := 1;
      var taken := DocHasChartName(name);
      while taken
        invariant 1 <= i
        invariant taken <==> name in ts
        invariant i == 1 ==> name == baseName
        invariant i > 1 ==> baseName in ts && name == Numbered(baseName, i - 1)
        invariant forall j :: 1 <= j < i - 1 ==> Numbered(baseName, j) in ts
        invariant taken ==> i <= bound
        decreases bound - i
      {
        name := baseName + NumberString(i);
        assert name == Numbered(baseName, i);
        i := i + 1;
        taken := DocHasChartName(name);
        if taken {
          TakenNameBound(baseName, i - 1, ts);
        }
      }
      if i > 1 {
        assert name == Numbered(baseName, i - 1);
      }
    }

    /**
     * Adds a chart tab. A title that is taken becomes the next free name made
     * from it; an empty title becomes the next free name made from the
     * default name. The tab starts with the window's mode, stitch and colours.
     */
    method NewChart(title: string, defaultName: string)
      modifies this`tabs, this`modified
      ensures |tabs| == |old(tabs)| + 1 && tabs[..|old(tabs)|] == old(tabs)
      ensures var t := tabs[|old(tabs)|];
        && t.title !in Titles(old(tabs))
        && (title in Titles(old(tabs)) ==> IsNextName(Titles(old(tabs)), title, t.title))
        && (title !in Titles(old(tabs)) && title != "" ==> t.title == title)
        && (title !in Titles(old(tabs)) && title == "" ==> IsNextName(Titles(old(tabs)), defaultName, t.title))
        && t == Tab(t.title, true, editMode, stitch, fgColor, bgColor)
      ensures modified
    {
      var name := title;
      var taken := DocHasChartName(name);
      if taken {
        name := NextChartName(name);
        NextNameNonEmpty(Titles(tabs), title, name);
      }
      var tab := Tab("", true, editMode, stitch, fgColor, bgColor);
      if name == "" {
        name := NextChartName(defaultName);
      }
      tabs := tabs + [tab.(title := name)];
      modified := true;
    }

    // -- Edit modes

    /** Pushes one setting to every chart tab. */
    method PushToTabs(s: TabSetting)
      modifies this`tabs
      ensures PushedTo(old(tabs), tabs, s)
    {
      var i := 0;
      while i < |tabs|
        invariant 0 <= i <= |tabs| == |old(tabs)|
        invariant forall k :: 0 <= k < i ==>
          tabs[k] == if old(tabs)[k].isChart then Apply(old(tabs)[k], s) else old(tabs)[k]
        invariant forall k :: i <= k < |tabs| ==> tabs[k] == old(tabs)[k]
      {
        if tabs[i].isChart {
          tabs := tabs[i := Apply(tabs[i], s)];
        }
        i := i + 1;
      }
    }

    /**
     * Stores the mode, checks the group action that carries it (an unknown
     * code leaves the group as it is) and pushes the mode to every chart tab.
     */
    method SetEditMode(mode: int)
      requires Valid()
      modifies this`editMode, this`checkedMode, this`tabs
      ensures Valid()
      ensures editMode == mode
      ensures EditModes.StitchMode <= mode <= EditModes.StretchMode ==> checkedMode == Some(GroupIndex(mode))
      ensures !(EditModes.StitchMode <= mode <= EditModes.StretchMode) ==> checkedMode == old(checkedMode)
      ensures PushedTo(old(tabs), tabs, ModeSetting(mode))
    {
      editMode := mode;
      if EditModes.ActionForCode(mode) != EditModes.OtherAction {
        checkedMode := Some(GroupIndex(mode));
      }
      PushToTabs(ModeSetting(mode));
    }

    /** A triggered mode action sets the mode it carries; any other action sets -1. */
    method ChangeTabMode(a: EditModes.ModeAction)
      requires Valid()
      modifies this`editMode, this`checkedMode, this`tabs
      ensures Valid()
      ensures editMode == EditModes.ModeCode(a)
      ensures a != EditModes.OtherAction ==> checkedMode.Some? && EditModes.GroupActions[checkedMode.value] == a
      ensures a == EditModes.OtherAction ==> editMode == EditModes.NoMode && checkedMode == old(checkedMode)
      ensures PushedTo(old(tabs), tabs, ModeSetting(EditModes.ModeCode(a)))
    {
      var mode := EditModes.ModeCode(a);
      SetEditMode(mode);
    }

    /** A stitch picked from a list: ignored when empty, otherwise pushed to every chart tab with stitch mode. */
    method SelectStitch(s: string)
      requires Valid()
      modifies this`editMode, this`checkedMode, this`tabs
      ensures Valid()
      ensures s == "" ==> editMode == old(editMode) && checkedMode == old(checkedMode) && tabs == old(tabs)
      ensures s != "" ==> editMode == EditModes.StitchMode && checkedMode == Some(0)
      ensures s != "" ==> exists mid :: PushedTo(old(tabs), mid, StitchSetting(s)) &&
                                        PushedTo(mid, tabs, ModeSetting(EditModes.StitchMode))
    {
      if s == "" {
        return;
      }
      PushToTabs(StitchSetting(s));
      ghost var mid := tabs;
      SetEditMode(EditModes.StitchMode);
    }

    /** A colour picked from the pattern-colour list becomes every chart tab's background colour, with colour mode. */
    method SelectListedColor(color: string)
      requires Valid()
      modifies this`editMode, this`checkedMode, this`tabs
      ensures Valid()
      ensures editMode == EditModes.ColorMode && checkedMode == Some(1)
      ensures exists mid :: PushedTo(old(tabs), mid, BgSetting(color)) &&
                            PushedTo(mid, tabs, ModeSetting(EditModes.ColorMode))
    {
      PushToTabs(BgSetting(color));
      ghost var mid := tabs;
      SetEditMode(EditModes.ColorMode);
    }

    /** The window's background colour goes to every chart tab, with colour mode. */
    method UpdateBgColor()
      requires Valid()
      modifies this`editMode, this`checkedMode, this`tabs
      ensures Valid()
      ensures editMode == EditModes.ColorMode && checkedMode == Some(1)
      ensures exists mid :: PushedTo(old(tabs), mid, BgSetting(bgColor)) &&
                            PushedTo(mid, tabs, ModeSetting(EditModes.ColorMode))
    {
      PushToTabs(BgSetting(bgColor));
      ghost var mid := tabs;
      SetEditMode(EditModes.ColorMode);
    }

    /** The window's foreground colour goes to every chart tab, with colour mode. */
    method UpdateFgColor()
      requires Valid()
      modifies this`editMode, this`checkedMode, this`tabs
      ensures Valid()
      ensures editMode == EditModes.ColorMode && checkedMode == Some(1)
      ensures exists mid :: PushedTo(old(tabs), mid, FgSetting(fgColor)) &&
                            PushedTo(mid, tabs, ModeSetting(EditModes.ColorMode))
    {
      PushToTabs(FgSetting(fgColor));
      ghost var mid := tabs;
      SetEditMode(EditModes.ColorMode);
    }

    /**
     * The colour dialog for the background or the foreground: a cancelled
     * dialog (None) changes nothing; a picked colour is stored and pushed.
     */
    method SelectColor(background: bool, picked: Option<string>)
      requires Valid()
      modifies this`bgColor, this`fgColor, this`editMode, this`checkedMode, this`tabs
      ensures Valid()
      ensures picked.None? ==>
        (bgColor == old(bgColor) && fgColor == old(fgColor) &&
         editMode == old(editMode) && checkedMode == old(checkedMode) && tabs == old(tabs))
      ensures picked.Some? && background ==>
        (bgColor == picked.value && fgColor == old(fgColor) &&
         exists mid :: PushedTo(old(tabs), mid, BgSetting(picked.value)) &&
                       PushedTo(mid, tabs, ModeSetting(EditModes.ColorMode)))
      ensures picked.Some? && !background ==>
        (fgColor == picked.value && bgColor == old(bgColor) &&
         exists mid :: PushedTo(old(tabs), mid, FgSetting(picked.value)) &&
                       PushedTo(mid, tabs, ModeSetting(EditModes.ColorMode)))
      ensures picked.Some? ==> editMode == EditModes.ColorMode && checkedMode == Some(1)
    {
      if background {
        if picked.Some? {
          bgColor := picked.value;
          UpdateBgColor();
        }
      } else {
        if picked.Some? {
          fgColor := picked.value;
          UpdateFgColor();
        }
      }
    }

    /**
     * Before the modes menu opens: an action is enabled exactly when its text
     * is among the current chart's modes, and the checked action becomes the
     * first enabled one at or after the previously checked one (from the
     * first action when none was checked), or none.
     */
    method MenuModesAboutToShow(modes: seq<string>)
      requires Valid()
      modifies this`modeEnabled, this`checkedMode
      ensures Valid()
      ensures forall k :: 0 <= k < 6 ==> modeEnabled[k] == (modeTexts[k] in modes)
      ensures checkedMode == FirstEnabled(modeEnabled, if old(checkedMode).Some? then old(checkedMode).value else 0, 6)
    {
      ghost var c0 := checkedMode;
      ghost var start: nat := if c0.Some? then c0.value else 0;
      ghost var texts := modeTexts;
      ghost var en := seq(6, k requires 0 <= k < 6 => texts[k] in modes);
      var enabled := false;
      var selected := false;
      var checkedItem := false;
      var used := false;
      var j := 0;
      while j < 6
        invariant 0 <= j <= 6 && Valid()
        invariant forall k :: 0 <= k < j ==> modeEnabled[k] == en[k]
        invariant checkedItem <==> c0.Some? && j > c0.value
        invariant used <==> FirstEnabled(en, start, if j < start then start else j).Some?
        invariant used ==> checkedMode == FirstEnabled(en, start, j)
        invariant !used ==> checkedMode == if c0.Some? && j <= c0.value then c0 else None
        invariant !selected
      {
        enabled := modeTexts[j] in modes;
        if checkedMode.Some? && checkedMode.value == j {
          checkedItem := true;
        }
        if enabled && !used && (checkedMode.None? || checkedItem) {
          selected := true;
          used := true;
        }
        modeEnabled := modeEnabled[j := enabled];
        if selected {
          checkedMode := Some(j);
        } else if checkedMode.Some? && checkedMode.value == j {
          checkedMode := None;
        }
        selected := false;
        j := j + 1;
      }
    }

    // -- Pattern colours and tabs

    /**
     * Rebuilds the pattern-colour list (when there is a tab) from the pattern
     * colours, given in the order of their colour keys.
     */
    method UpdatePatternColors(patternColors: seq<Swatch>, prefix: string)
      modifies this`colorItems
      ensures |tabs| == 0 ==> colorItems == old(colorItems)
      ensures |tabs| > 0 ==> colorItems == Labelled(Kept(ByAdded(patternColors), prefix), prefix)
    {
      if |tabs| <= 0 {
        return;
      }
      colorItems := [];
      var sorted := SortByAdded(patternColors);
      colorItems := ListColors(sorted, prefix);
    }

    /**
     * Closes a tab on request: a negative index is ignored; the last tab
     * closes the window instead; otherwise the tab goes (an index past the
     * end removes nothing) and the document counts as modified.
     */
    method RemoveTab(index: int)
      modifies this`tabs, this`closed, this`modified
      ensures index < 0 ==> tabs == old(tabs) && closed == old(closed) && modified == old(modified)
      ensures index >= 0 && |old(tabs)| == 1 ==> closed && tabs == old(tabs) && modified == old(modified)
      ensures index >= 0 && |old(tabs)| != 1 ==>
        (closed == old(closed) && modified &&
         tabs == if index < |old(tabs)| then old(tabs)[..index] + old(tabs)[index + 1..] else old(tabs))
    {
      if index < 0 {
        return;
      }
      if |tabs| == 1 {
        closed := true;
        return;
      }
      if index < |tabs| {
        tabs := tabs[..index] + tabs[index + 1..];
      }
      modified := true;
    }
  }

  /** Without an occurrence of f there is nothing to remove. */
  lemma {:induction false} RemoveAllAbsent(s: seq<string>, f: string)
    requires f !in s
    ensures RemoveAll(s, f) == s
  {
    if s != [] {
      assert f !in s[1..];
      RemoveAllAbsent(s[1..], f);
    }
  }
}
