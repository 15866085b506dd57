/** `migrate_flat`: dumps lying flat in the morgue root move into their players' directories.

    The tree is a value: the plain files at the root, and the directories with what is in each. What the
    file system refuses for reasons of its own is a parameter. */
module MorgueMigration {
  import opened Options

  type Name = string

  datatype Tree<!C> = Tree(files: map<Name, C>, dirs: map<Name, map<Name, C>>)

  /** What the file system refuses for reasons of its own: renames of these files, and making these
      directories. */
  datatype Host = Host(stuck: set<Name>, barred: set<Name>)

  // ----- whose dump it is -----

  predicate IsPlayChar(c: char) {
    'a' <= c <= 'z' || 'A' <= c <= 'Z' || '0' <= c <= '9' || c == '_'
  }

  predicate Playname(s: string) { s != "" && forall i :: 0 <= i < |s| ==> IsPlayChar(s[i]) }

  predicate HasSuffix(s: string, suffix: string) {
    |suffix| <= |s| && s[|s| - |suffix|..] == suffix
  }

  /** The part in front of the first dash. */
  function BeforeDash(s: string): string {
    if s == "" || s[0] == '-' then "" else [s[0]] + BeforeDash(s[1..])
  }

  const PREFIX := "morgue-"

  /** `owner_of`: the player a file at the root belongs to. */
  function OwnerOf(name: Name): Option<Name> {
    if !HasSuffix(name, ".txt") && !HasSuffix(name, ".lst") then None
    else
      var stem := name[..|name| - 4];
      var owner := if PREFIX <= stem then BeforeDash(stem[|PREFIX|..]) else stem;
      if Playname(owner) then Some(owner) else None
  }

  lemma OwnedHasDot(name: Name)
    ensures OwnerOf(name).Some? ==> !Playname(name)
  {
    if OwnerOf(name).Some? {
      assert name[|name| - 4..][0] == '.';
      assert !IsPlayChar(name[|name| - 4]);
    }
  }

  lemma PrefixIsNoPlayname(s: string)
    ensures PREFIX <= s ==> !Playname(s)
  {
    if PREFIX <= s {
      assert !IsPlayChar(s[6]);
    }
  }

  /** A playname has no dot, so no file that moves can stand where a player's directory goes. */
  lemma PlaynameOwnsNothing(name: Name)
    requires Playname(name)
    ensures OwnerOf(name) == None
  {
    OwnedHasDot(name);
  }

  /** Nothing is lost when a suffix of four characters goes. */
  lemma StemOf(stem: string, suffix: string)
    requires suffix == ".txt" || suffix == ".lst"
    ensures HasSuffix(stem + suffix, suffix) && (stem + suffix)[..|stem + suffix| - 4] == stem
  {
  }

  lemma {:induction false} BeforeDashOf(player: string, stamp: string)
    requires forall i :: 0 <= i < |player| ==> player[i] != '-'
    ensures BeforeDash(player + "-" + stamp) == player
  {
    if player == "" {
    } else {
      assert (player + "-" + stamp)[1..] == player[1..] + "-" + stamp;
      BeforeDashOf(player[1..], stamp);
    }
  }

  /** The two shapes that land in the root, for either suffix: a finished game's dump ... */
  lemma OwnerOfDump(player: Name, stamp: string, suffix: string)
    requires Playname(player) && (suffix == ".txt" || suffix == ".lst")
    ensures OwnerOf(PREFIX + player + "-" + stamp + suffix) == Some(player)
  {
    hide HasSuffix;
    var rest := player + "-" + stamp;
    StemOf(PREFIX + rest, suffix);
    assert PREFIX + player + "-" + stamp + suffix == (PREFIX + rest) + suffix;
    assert (PREFIX + rest)[|PREFIX|..] == rest;
    BeforeDashOf(player, stamp);
  }

  /** ... and a dump asked for in the game. */
  lemma OwnerOfNamedDump(player: Name, suffix: string)
    requires Playname(player) && (suffix == ".txt" || suffix == ".lst")
    ensures OwnerOf(player + suffix) == Some(player)
  {
    hide HasSuffix;
    StemOf(player, suffix);
    PrefixIsNoPlayname(player);
  }

  ghost predicate DumpName(name: Name, player: Name, suffix: string, stamp: string) {
    && (suffix == ".txt" || suffix == ".lst")
    && (name == player + suffix || name == "morgue-" + player + suffix || name == "morgue-" + player + "-" + stamp + suffix)
  }

  /** A name that is the player's dump, in any of the shapes the program takes for one. */
  ghost predicate IsDumpOf(name: Name, player: Name) {
    exists suffix, stamp :: DumpName(name, player, suffix, stamp)
  }

  lemma {:induction false} BeforeDashSplits(s: string)
    ensures var front := BeforeDash(s);
            front <= s && '-' !in front && (|front| < |s| ==> s == front + "-" + s[|front| + 1..] && '-' in s)
    decreases |s|
  {
    if s == "" || s[0] == '-' {
      assert s != "" ==> s == "" + "-" + s[1..];
    } else {
      BeforeDashSplits(s[1..]);
      var front := BeforeDash(s[1..]);
      assert BeforeDash(s) == [s[0]] + front && s == [s[0]] + s[1..];
      if |front| < |s[1..]| { assert s == ([s[0]] + front) + "-" + s[1..][|front| + 1..]; }
    }
  }

  lemma BeforeNoDash(s: string)
    requires '-' !in s
    ensures BeforeDash(s) == s
  {
    BeforeDashSplits(s);
  }

  /** What is left of a name without its suffix, taken apart. */
  lemma StemShapes(stem: string) returns (stamp: string)
    ensures var owner := if PREFIX <= stem then BeforeDash(stem[|PREFIX|..]) else stem;
            stem == owner || stem == "morgue-" + owner || stem == "morgue-" + owner + "-" + stamp
  {
    hide BeforeDash;
    stamp := "";
    if PREFIX <= stem {
      var rest := stem[|PREFIX|..];
      var owner := BeforeDash(rest);
      BeforeDashSplits(rest);
      assert stem == "morgue-" + rest;
      if |owner| < |rest| {
        stamp := rest[|owner| + 1..];
        assert stem == "morgue-" + owner + "-" + stamp;
      }
    }
  }

  lemma OwnedStem(name: Name)
    requires OwnerOf(name).Some?
    ensures |name| >= 4 && (name[|name| - 4..] == ".txt" || name[|name| - 4..] == ".lst")
    ensures var stem := name[..|name| - 4];
            var owner := if PREFIX <= stem then BeforeDash(stem[|PREFIX|..]) else stem;
            OwnerOf(name) == Some(owner) && Playname(owner)
  {
    hide BeforeDash, Playname;
  }

  lemma OwnedIsDump(name: Name, player: Name)
    requires OwnerOf(name) == Some(player)
    ensures Playname(player) && IsDumpOf(name, player)
  {
    hide BeforeDash, Playname, OwnerOf;
    OwnedStem(name);
    var stem, suffix := name[..|name| - 4], name[|name| - 4..];
    assert name == stem + suffix;
    var stamp := StemShapes(stem);
    assert DumpName(name, player, suffix, stamp);
  }

  lemma OwnerWithoutStamp(player: Name, suffix: string)
    requires Playname(player) && (suffix == ".txt" || suffix == ".lst")
    ensures OwnerOf("morgue-" + player + suffix) == Some(player)
  {
    hide HasSuffix;
    StemOf(PREFIX + player, suffix);
    assert "morgue-" + player + suffix == (PREFIX + player) + suffix;
    assert (PREFIX + player)[|PREFIX|..] == player;
    BeforeNoDash(player);
  }

  /** Whose dump a name is, and that it is nobody's otherwise. */
  lemma OwnerIff(name: Name, player: Name)
    ensures OwnerOf(name) == Some(player) <==> Playname(player) && IsDumpOf(name, player)
  {
    hide OwnerOf, Playname;
    if OwnerOf(name) == Some(player) { OwnedIsDump(name, player); }
    if Playname(player) && IsDumpOf(name, player) {
      var suffix, stamp :| DumpName(name, player, suffix, stamp);
      OwnerOfDump(player, stamp, suffix);
      OwnerOfNamedDump(player, suffix);
      OwnerWithoutStamp(player, suffix);
    }
  }

  /** Names that are nobody's: a dash in a hand-made one, another suffix, no player at all. */
  lemma NobodysNames()
    ensures OwnerOf("notes-old.txt") == None && OwnerOf("ann.map") == None && OwnerOf("morgue-.txt") == None
  {
    assert "notes-old.txt"[..9] == "notes-old" && !IsPlayChar("notes-old"[5]);
    assert "ann.map"[3..] == ".map" && ".map"[1] != ".txt"[1] && ".map"[1] != ".lst"[1];
    assert "morgue-.txt"[..7] == "morgue-" && "morgue-"[7..] == "";
  }

  // ----- one entry -----

  /** `create_dir_all` on a player's directory: it is there, or nothing keeps it from being made. */
  predicate CanMakeDir<C>(t: Tree<C>, host: Host, owner: Name) {
    owner !in t.files && (owner in t.dirs || owner !in host.barred)
  }

  predicate Exists<C>(t: Tree<C>, owner: Name, name: Name) { owner in t.dirs && name in t.dirs[owner] }

  /** Whether visiting this entry moves it. */
  predicate Moves<C>(t: Tree<C>, host: Host, name: Name) {
    && name in t.files && OwnerOf(name).Some?
    && CanMakeDir(t, host, OwnerOf(name).value)
    && !Exists(t, OwnerOf(name).value, name)
    && name !in host.stuck
  }

  function WithDir<C>(t: Tree<C>, owner: Name): Tree<C> {
    if owner in t.dirs then t else t.(dirs := t.dirs[owner := map[]])
  }

  /** One turn of the loop. */
  function Visit<C>(t: Tree<C>, host: Host, name: Name): Tree<C> {
    if name !in t.files || OwnerOf(name).None? || !CanMakeDir(t, host, OwnerOf(name).value) then t
    else
      var owner := OwnerOf(name).value;
      var made := WithDir(t, owner);
      if Exists(t, owner, name) || name in host.stuck then made
      else Tree(t.files - {name}, made.dirs[owner := made.dirs[owner][name := t.files[name]]])
  }

  function Names(order: seq<Name>): set<Name> { set n | n in order }

  function VisitAll<C>(t: Tree<C>, host: Host, order: seq<Name>): Tree<C> {
    if order == [] then t else Visit(VisitAll(t, host, order[..|order| - 1]), host, order[|order| - 1])
  }

  /** `migrate_flat`, walking the root's entries in whatever order they come. */
  method MigrateFlat<C>(start: Tree<C>, host: Host, order: seq<Name>) returns (t: Tree<C>, moved: nat)
    ensures t == VisitAll(start, host, order)
    ensures moved + |t.files| == |start.files|
  {
    t, moved := start, 0;
    for i := 0 to |order|
      invariant t == VisitAll(start, host, order[..i])
      invariant moved + |t.files| == |start.files|
    {
      assert order[..i + 1][..i] == order[..i];
      var name := order[i];
      if name !in t.files {
        continue; // a directory
      }
      var owner := OwnerOf(name);
      if owner.None? || !CanMakeDir(t, host, owner.value) {
        continue;
      }
      var made := WithDir(t, owner.value);
      if Exists(t, owner.value, name) || name in host.stuck {
        t := made;
        continue;
      }
      assert t.files.Keys == (t.files - {name}).Keys + {name};
      t := Tree(t.files - {name}, made.dirs[owner.value := made.dirs[owner.value][name := t.files[name]]]);
      moved := moved + 1;
    }
    assert order[..|order|] == order;
  }

  // ----- the result in one stroke -----

  // The tree after visiting the names in `seen`, whatever their order.

  /** At the root: exactly the files that do not move. */
  ghost predicate FilesAfter<C>(t: Tree<C>, start: Tree<C>, host: Host, seen: set<Name>) {
    && (forall n :: n in t.files <==> n in start.files && !(n in seen && Moves(start, host, n)))
    && (forall n :: n in t.files ==> t.files[n] == start.files[n])
  }

  ghost predicate Opens<C>(start: Tree<C>, host: Host, seen: set<Name>, d: Name) {
    exists n :: n in seen && n in start.files && OwnerOf(n) == Some(d) && CanMakeDir(start, host, d)
  }

  /** Directories: the old ones, and the owners of the names seen. */
  ghost predicate DirsAfter<C>(t: Tree<C>, start: Tree<C>, host: Host, seen: set<Name>) {
    forall d :: d in t.dirs <==> d in start.dirs || Opens(start, host, seen, d)
  }

  ghost predicate MovesTo<C>(start: Tree<C>, host: Host, seen: set<Name>, n: Name, d: Name) {
    n in seen && Moves(start, host, n) && OwnerOf(n) == Some(d)
  }

  /** In them: what was there, untouched, and what moved in. */
  ghost predicate EntriesAfter<C>(t: Tree<C>, start: Tree<C>, host: Host, seen: set<Name>) {
    && (forall d, n :: Exists(t, d, n) <==> Exists(start, d, n) || MovesTo(start, host, seen, n, d))
    && (forall d, n :: Exists(t, d, n) ==>
          t.dirs[d][n] == if Exists(start, d, n) then start.dirs[d][n] else start.files[n])
  }

  ghost predicate IsAfter<C>(t: Tree<C>, start: Tree<C>, host: Host, seen: set<Name>) {
    FilesAfter(t, start, host, seen) && DirsAfter(t, start, host, seen) && EntriesAfter(t, start, host, seen)
  }

  lemma AfterNothing<C>(t: Tree<C>, host: Host)
    ensures IsAfter(t, t, host, {})
  {
  }

  /** A file where an owner's directory would go never moves away. */
  lemma OwnerFilesStay<C>(t: Tree<C>, start: Tree<C>, host: Host, seen: set<Name>, name: Name)
    requires IsAfter(t, start, host, seen) && OwnerOf(name).Some?
    ensures CanMakeDir(t, host, OwnerOf(name).value) <==> CanMakeDir(start, host, OwnerOf(name).value)
  {
    PlaynameOwnsNothing(OwnerOf(name).value);
  }

  /** Whether a visit moves its name is settled by the tree the walk began with. */
  lemma MovesNow<C>(t: Tree<C>, start: Tree<C>, host: Host, seen: set<Name>, name: Name)
    requires IsAfter(t, start, host, seen)
    ensures Moves(t, host, name) <==> Moves(start, host, name) && name !in seen
  {
    hide OwnerOf;
    if OwnerOf(name).Some? {
      OwnerFilesStay(t, start, host, seen, name);
      var d := OwnerOf(name).value;
      assert Exists(t, d, name) <==> Exists(start, d, name) || MovesTo(start, host, seen, name, d);
    }
  }

  lemma VisitFiles<C>(t: Tree<C>, start: Tree<C>, host: Host, seen: set<Name>, name: Name)
    requires FilesAfter(t, start, host, seen)
    requires Moves(t, host, name) <==> Moves(start, host, name) && name !in seen
    ensures FilesAfter(Visit(t, host, name), start, host, seen + {name})
  {
    hide OwnerOf;
    assert Visit(t, host, name).files == if Moves(t, host, name) then t.files - {name} else t.files;
  }

  lemma OpensNext<C>(start: Tree<C>, host: Host, seen: set<Name>, name: Name, d: Name)
    ensures Opens(start, host, seen + {name}, d) <==>
            Opens(start, host, seen, d) || (name in start.files && OwnerOf(name) == Some(d) && CanMakeDir(start, host, d))
  {
    hide OwnerOf;
    var seen' := seen + {name};
    if Opens(start, host, seen, d) {
      var n :| n in seen && n in start.files && OwnerOf(n) == Some(d) && CanMakeDir(start, host, d);
      assert n in seen';
    }
    if name in start.files && OwnerOf(name) == Some(d) && CanMakeDir(start, host, d) { assert name in seen'; }
  }

  lemma SeenOpens<C>(start: Tree<C>, host: Host, seen: set<Name>, name: Name, d: Name)
    requires name in seen && name in start.files && OwnerOf(name) == Some(d) && CanMakeDir(start, host, d)
    ensures Opens(start, host, seen, d)
  {
  }

  lemma VisitDirs<C>(t: Tree<C>, start: Tree<C>, host: Host, seen: set<Name>, name: Name)
    requires IsAfter(t, start, host, seen)
    ensures DirsAfter(Visit(t, host, name), start, host, seen + {name})
  {
    hide OwnerOf, Opens, EntriesAfter;
    var next := Visit(t, host, name);
    if OwnerOf(name).Some? { OwnerFilesStay(t, start, host, seen, name); }
    forall d ensures d in next.dirs <==> d in start.dirs || Opens(start, host, seen + {name}, d) {
      OpensNext(start, host, seen, name, d);
      if name in start.files && name !in t.files && OwnerOf(name) == Some(d) && CanMakeDir(start, host, d) {
        SeenOpens(start, host, seen, name, d);
      }
    }
  }

  lemma VisitEntries<C>(t: Tree<C>, start: Tree<C>, host: Host, seen: set<Name>, name: Name)
    requires FilesAfter(t, start, host, seen) && EntriesAfter(t, start, host, seen)
    requires Moves(t, host, name) <==> Moves(start, host, name) && name !in seen
    ensures EntriesAfter(Visit(t, host, name), start, host, seen + {name})
  {
    hide OwnerOf;
    var next := Visit(t, host, name);
    forall d, n
      ensures Exists(next, d, n) <==> Exists(t, d, n) || (n == name && Moves(t, host, name) && OwnerOf(name) == Some(d))
      ensures Exists(t, d, n) ==> next.dirs[d][n] == t.dirs[d][n]
    {
    }
  }

  lemma VisitAfter<C>(t: Tree<C>, start: Tree<C>, host: Host, seen: set<Name>, name: Name)
    requires IsAfter(t, start, host, seen)
    ensures IsAfter(Visit(t, host, name), start, host, seen + {name})
  {
    hide FilesAfter, DirsAfter, EntriesAfter, Visit;
    MovesNow(t, start, host, seen, name);
    VisitFiles(t, start, host, seen, name);
    VisitDirs(t, start, host, seen, name);
    VisitEntries(t, start, host, seen, name);
  }

  lemma {:induction false} VisitAllIsAfter<C>(start: Tree<C>, host: Host, order: seq<Name>)
    ensures IsAfter(VisitAll(start, host, order), start, host, Names(order))
    decreases |order|
  {
    hide IsAfter, Visit;
    if order == [] {
      AfterNothing(start, host);
      assert Names(order) == {};
    } else {
      var front, last := order[..|order| - 1], order[|order| - 1];
      VisitAllIsAfter(start, host, front);
      VisitAfter(VisitAll(start, host, front), start, host, Names(front), last);
      assert order == front + [last];
      assert Names(order) == Names(front) + {last};
    }
  }

  lemma SameOpens<C>(start: Tree<C>, host: Host, seen: set<Name>, also: set<Name>, d: Name)
    requires forall n :: n in start.files ==> (n in seen <==> n in also)
    ensures Opens(start, host, seen, d) <==> Opens(start, host, also, d)
  {
    hide OwnerOf;
    if Opens(start, host, seen, d) {
      var n :| n in seen && n in start.files && OwnerOf(n) == Some(d) && CanMakeDir(start, host, d);
      assert n in also;
    }
    if Opens(start, host, also, d) {
      var n :| n in also && n in start.files && OwnerOf(n) == Some(d) && CanMakeDir(start, host, d);
      assert n in seen;
    }
  }

  lemma SameEntries<C>(a: Tree<C>, b: Tree<C>, start: Tree<C>, host: Host, seen: set<Name>, also: set<Name>, d: Name)
    requires EntriesAfter(a, start, host, seen) && EntriesAfter(b, start, host, also)
    requires forall n :: n in start.files ==> (n in seen <==> n in also)
    requires d in a.dirs && d in b.dirs
    ensures a.dirs[d] == b.dirs[d]
  {
    hide OwnerOf;
    forall n ensures n in a.dirs[d] <==> n in b.dirs[d] {
      assert n in a.dirs[d] <==> Exists(a, d, n);
      assert n in b.dirs[d] <==> Exists(b, d, n);
    }
    forall n | n in a.dirs[d] ensures a.dirs[d][n] == b.dirs[d][n] {
      assert Exists(a, d, n) && Exists(b, d, n);
    }
  }

  lemma AfterIsUnique<C>(a: Tree<C>, b: Tree<C>, start: Tree<C>, host: Host, seen: set<Name>, also: set<Name>)
    requires IsAfter(a, start, host, seen) && IsAfter(b, start, host, also)
    requires forall n :: n in start.files ==> (n in seen <==> n in also)
    ensures a == b
  {
    hide OwnerOf, Opens;
    assert a.files == b.files;
    forall d ensures d in a.dirs <==> d in b.dirs { SameOpens(start, host, seen, also, d); }
    forall d | d in a.dirs ensures a.dirs[d] == b.dirs[d] {
      SameEntries(a, b, start, host, seen, also, d);
    }
    assert a.dirs == b.dirs;
  }

  /** Nothing is overwritten and no content is lost: every file in a directory stays as it was; every root
      file is still there, or stands with its content under its owner, where nothing stood before. */
  lemma NothingLostOrOverwritten<C>(start: Tree<C>, host: Host, order: seq<Name>)
    ensures var t := VisitAll(start, host, order);
            (forall d, n :: Exists(start, d, n) ==> Exists(t, d, n) && t.dirs[d][n] == start.dirs[d][n]) &&
            (forall n :: n in start.files && n in t.files ==> t.files[n] == start.files[n]) &&
            (forall n :: n in start.files && n !in t.files ==>
               OwnerOf(n).Some? && !Exists(start, OwnerOf(n).value, n) &&
               Exists(t, OwnerOf(n).value, n) && t.dirs[OwnerOf(n).value][n] == start.files[n])
  {
    hide OwnerOf;
    VisitAllIsAfter(start, host, order);
    var t, seen := VisitAll(start, host, order), Names(order);
    forall n | n in start.files && n !in t.files
      ensures OwnerOf(n).Some? && Exists(t, OwnerOf(n).value, n)
    {
      assert MovesTo(start, host, seen, n, OwnerOf(n).value);
    }
  }

  /** After a whole walk, exactly the dumps have moved whose owner has a directory or can get one, where no
      file of that name stands in the way, and nothing of the dump's name is in it yet; and there is a
      directory for each owner that could get one. */
  lemma WholeWalkMovesAllItCan<C>(start: Tree<C>, host: Host, order: seq<Name>, n: Name)
    requires (forall x :: x in start.files ==> x in order) && n in start.files
    ensures n !in VisitAll(start, host, order).files <==>
            OwnerOf(n).Some? &&
            var owner := OwnerOf(n).value;
            && owner !in start.files && (owner in start.dirs || owner !in host.barred)
            && !(owner in start.dirs && n in start.dirs[owner]) && n !in host.stuck
    ensures OwnerOf(n).Some? && OwnerOf(n).value !in start.files &&
            (OwnerOf(n).value in start.dirs || OwnerOf(n).value !in host.barred) ==>
              OwnerOf(n).value in VisitAll(start, host, order).dirs
  {
    hide OwnerOf;
    VisitAllIsAfter(start, host, order);
    if OwnerOf(n).Some? && CanMakeDir(start, host, OwnerOf(n).value) {
      SeenOpens(start, host, Names(order), n, OwnerOf(n).value);
    }
  }

  /** No directory comes from anywhere else. */
  lemma DirsHaveOwners<C>(start: Tree<C>, host: Host, order: seq<Name>, d: Name)
    requires d in VisitAll(start, host, order).dirs && d !in start.dirs
    ensures d !in start.files && d !in host.barred && exists n :: n in start.files && OwnerOf(n) == Some(d)
  {
    hide OwnerOf;
    VisitAllIsAfter(start, host, order);
  }

  /** The order of the walk does not matter. */
  lemma OrderDoesNotMatter<C>(start: Tree<C>, host: Host, a: seq<Name>, b: seq<Name>)
    requires forall n :: n in start.files ==> n in a && n in b
    ensures VisitAll(start, host, a) == VisitAll(start, host, b)
  {
    VisitAllIsAfter(start, host, a);
    VisitAllIsAfter(start, host, b);
    AfterIsUnique(VisitAll(start, host, a), VisitAll(start, host, b), start, host, Names(a), Names(b));
  }

  lemma {:induction false} VisitAllConcat<C>(start: Tree<C>, host: Host, a: seq<Name>, b: seq<Name>)
    ensures VisitAll(start, host, a + b) == VisitAll(VisitAll(start, host, a), host, b)
    decreases |b|
  {
    hide Visit;
    if b == [] {
      assert a + b == a;
    } else {
      var b' := b[..|b| - 1];
      assert (a + b)[..|a + b| - 1] == a + b' && (a + b)[|a + b| - 1] == b[|b| - 1];
      VisitAllConcat(start, host, a, b');
    }
  }

  /** A walk cut off anywhere and done over ends where an uninterrupted one does; in particular a second
      whole walk changes nothing. */
  lemma InterruptedThenCompleted<C>(start: Tree<C>, host: Host, part: seq<Name>, again: seq<Name>, whole: seq<Name>)
    requires forall n :: n in start.files ==> n in whole
    requires forall n :: n in VisitAll(start, host, part).files ==> n in again
    ensures VisitAll(VisitAll(start, host, part), host, again) == VisitAll(start, host, whole)
  {
    VisitAllConcat(start, host, part, again);
    VisitAllIsAfter(start, host, part);
    VisitAllIsAfter(start, host, part + again);
    VisitAllIsAfter(start, host, whole);
    var seen := Names(part + again);
    forall n | n in start.files ensures n in seen {
      if n !in VisitAll(start, host, part).files { assert n in part; }
    }
    AfterIsUnique(VisitAll(start, host, part + again), VisitAll(start, host, whole), start, host, seen, Names(whole));
  }

  /** Even a cut inside one turn, after the directory is made and before the rename, costs nothing. */
  lemma CutBeforeRename<C>(start: Tree<C>, host: Host, part: seq<Name>, name: Name, again: seq<Name>, whole: seq<Name>)
    requires forall n :: n in start.files ==> n in whole
    requires name in VisitAll(start, host, part).files && OwnerOf(name).Some?
    requires CanMakeDir(VisitAll(start, host, part), host, OwnerOf(name).value)
    requires forall n :: n in VisitAll(start, host, part).files ==> n in again
    ensures VisitAll(WithDir(VisitAll(start, host, part), OwnerOf(name).value), host, again)
            == VisitAll(start, host, whole)
  {
    hide OwnerOf;
    var t := VisitAll(start, host, part);
    var cut := WithDir(t, OwnerOf(name).value);
    assert Visit(cut, host, name) == Visit(t, host, name);
    assert [name][..0] == [];
    assert forall u: Tree<C> {:trigger Visit(u, host, name)} :: VisitAll(u, host, [name]) == Visit(u, host, name);
    VisitAllConcat(cut, host, [name], again);
    VisitAllConcat(t, host, [name], again);
    OrderDoesNotMatter(cut, host, again, [name] + again);
    OrderDoesNotMatter(t, host, again, [name] + again);
    InterruptedThenCompleted(start, host, part, again, whole);
  }

  lemma SecondRunChangesNothing<C>(start: Tree<C>, host: Host, first: seq<Name>, second: seq<Name>)
    requires forall n :: n in start.files ==> n in first
    requires forall n :: n in VisitAll(start, host, first).files ==> n in second
    ensures VisitAll(VisitAll(start, host, first), host, second) == VisitAll(start, host, first)
  {
    InterruptedThenCompleted(start, host, first, second, first);
  }
}
