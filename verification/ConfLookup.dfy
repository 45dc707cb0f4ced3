/** Looking an entry up along the Inherits chain of a section (wvconf.cc), which may run into itself. */
module ConfLookup {
  import opened Optional
  import opened Text
  import opened ConfModel

  ghost predicate InConfig(c: Config, at: Option<nat>) {
    at.Some? ==> at.value < |c.sections|
  }

  /** The section that a section inherits from. */
  function Next(c: Config, k: nat): (r: Option<nat>)
    requires k < |c.sections|
    ensures r.Some? ==> r.value < |c.sections|
  {
    match Lookup(c.sections[k].entries, "Inherits")
    case Some(name) => Find(c, name)
    case None => None
  }

  /** The section n steps up the chain; None above its top. */
  function Reach(c: Config, at: Option<nat>, n: nat): (r: Option<nat>)
    requires InConfig(c, at)
    ensures InConfig(c, r)
  {
    if n == 0 then at
    else
      var before := Reach(c, at, n - 1);
      if before.None? then None else Next(c, before.value)
  }

  predicate Misses(c: Config, at: Option<nat>, entry: string)
    requires InConfig(c, at)
  {
    at.Some? ==> Lookup(c.sections[at.value].entries, entry).None?
  }

  /** The chain meets the entry for the first time after n steps, with this value. */
  ghost predicate Meets(c: Config, at: Option<nat>, n: nat, entry: string, value: string)
    requires InConfig(c, at)
  {
    && Reach(c, at, n).Some? && Lookup(c.sections[Reach(c, at, n).value].entries, entry) == Some(value)
    && forall m: nat :: m < n ==> Misses(c, Reach(c, at, m), entry)
  }

  /** What the chain from a section says about an entry: the value where it is met first, or that it is never met,
      however long one goes on. */
  ghost predicate Answer(c: Config, at: Option<nat>, entry: string, r: Option<string>)
    requires InConfig(c, at)
  {
    match r
    case Some(v) => exists n: nat :: Meets(c, at, n, entry, v)
    case None => forall n: nat :: Misses(c, Reach(c, at, n), entry)
  }

  lemma MeetsOnce(c: Config, at: Option<nat>, entry: string, n: nat, v: string, n': nat, v': string)
    requires InConfig(c, at) && Meets(c, at, n, entry, v) && Meets(c, at, n', entry, v')
    ensures v == v'
  {
    assert !Misses(c, Reach(c, at, n), entry) && !Misses(c, Reach(c, at, n'), entry);
    assert n == n';
  }

  lemma MetIsNotNever(c: Config, at: Option<nat>, entry: string, v: string)
    requires InConfig(c, at) && Answer(c, at, entry, Some(v))
    ensures !Answer(c, at, entry, None)
  {
    var n: nat :| Meets(c, at, n, entry, v);
    assert !Misses(c, Reach(c, at, n), entry);
  }

  lemma AnswerUnique(c: Config, at: Option<nat>, entry: string, r: Option<string>, r': Option<string>)
    requires InConfig(c, at) && Answer(c, at, entry, r) && Answer(c, at, entry, r')
    ensures r == r'
  {
    if r.Some? {
      MetIsNotNever(c, at, entry, r.value);
    }
    if r'.Some? {
      MetIsNotNever(c, at, entry, r'.value);
    }
    if r.Some? && r'.Some? {
      var n: nat :| Meets(c, at, n, entry, r.value);
      var n': nat :| Meets(c, at, n', entry, r'.value);
      MeetsOnce(c, at, entry, n, r.value, n', r'.value);
    }
  }

  lemma {:induction false} MetSomewhere(c: Config, at: Option<nat>, entry: string, n: nat)
    requires InConfig(c, at) && !Misses(c, Reach(c, at, n), entry)
    ensures exists v :: Answer(c, at, entry, Some(v))
  {
    if m: nat :| m < n && !Misses(c, Reach(c, at, m), entry) {
      MetSomewhere(c, at, entry, m);
    } else {
      var v := Lookup(c.sections[Reach(c, at, n).value].entries, entry).value;
      assert Meets(c, at, n, entry, v);
      assert Answer(c, at, entry, Some(v));
    }
  }

  /** Every chain has an answer, also one that runs into itself. */
  lemma AnswerExists(c: Config, at: Option<nat>, entry: string)
    requires InConfig(c, at)
    ensures exists r :: Answer(c, at, entry, r)
  {
    if n: nat :| !Misses(c, Reach(c, at, n), entry) {
      MetSomewhere(c, at, entry, n);
    } else {
      assert Answer(c, at, entry, None);
    }
  }

  /** The answer of a chain. */
  ghost function Found(c: Config, at: Option<nat>, entry: string): (r: Option<string>)
    requires InConfig(c, at)
    ensures Answer(c, at, entry, r)
  {
    AnswerExists(c, at, entry);
    var r :| Answer(c, at, entry, r);
    r
  }

  /** What get has to give: the answer of the section's chain, else the global entry, else the default. */
  ghost function Got(c: Config, section: string, entry: string, defVal: Option<string>): Option<string> {
    var found, global := Found(c, Find(c, section), entry), Lookup(c.globals, entry);
    if found.Some? then found else if global.Some? then global else defVal
  }

  /** What fuzzy_get has to give: the answer of the first section, from a place on, whose own chain has one. */
  ghost function FoundFirst(c: Config, names: seq<string>, i: nat, entry: string, defVal: Option<string>)
    : Option<string>
    requires i <= |names|
    decreases |names| - i
  {
    if i == |names| then defVal
    else if Found(c, Find(c, names[i]), entry).Some? then Found(c, Find(c, names[i]), entry)
    else FoundFirst(c, names, i + 1, entry, defVal)
  }

  /** The visited sections do not have the entry, and lead only to each other, or to one place still to be looked at. */
  ghost predicate Exhausted(c: Config, visited: set<nat>, entry: string, ahead: Option<nat>) {
    forall k :: k in visited ==>
      && k < |c.sections| && Lookup(c.sections[k].entries, entry).None?
      && (Next(c, k) == ahead || Next(c, k).None? || Next(c, k).value in visited)
  }

  /** Once the chain is at its end or among the visited sections, it stays there. */
  lemma {:induction false} StaysVisited(c: Config, visited: set<nat>, entry: string, start: Option<nat>, n: nat, m: nat)
    requires InConfig(c, start) && n <= m
    requires var at := Reach(c, start, n); Exhausted(c, visited, entry, at) && (at.None? || at.value in visited)
    ensures var at := Reach(c, start, m); at.None? || at.value in visited
    decreases m - n
  {
    if n < m {
      StaysVisited(c, visited, entry, start, n, m - 1);
    }
  }

  /** The search may stop at the end of the chain, or at a visited section: what was not met so far is never met. */
  lemma NeverMet(c: Config, visited: set<nat>, entry: string, start: Option<nat>, n: nat)
    requires InConfig(c, start) && forall m: nat :: m < n ==> Misses(c, Reach(c, start, m), entry)
    requires var at := Reach(c, start, n); Exhausted(c, visited, entry, at) && (at.None? || at.value in visited)
    ensures Answer(c, start, entry, None) && Exhausted(c, visited, entry, None)
  {
    forall m: nat
      ensures Misses(c, Reach(c, start, m), entry)
    {
      if n <= m {
        StaysVisited(c, visited, entry, start, n, m);
      }
    }
  }

  /** The cache holds the names of the visited sections. */
  ghost predicate Caches(c: Config, visited: set<nat>, cache: set<string>) {
    forall k :: 0 <= k < |c.sections| ==> (k in visited <==> c.sections[k].name in cache)
  }

  lemma CachesOneMore(c: Config, visited: set<nat>, cache: set<string>, k: nat)
    requires DistinctSections(c.sections) && Caches(c, visited, cache) && k < |c.sections|
    ensures Caches(c, visited + {k}, cache + {c.sections[k].name})
  {
    forall j | 0 <= j < |c.sections|
      ensures j in visited + {k} <==> c.sections[j].name in cache + {c.sections[k].name}
    {
      assert j == k || !SameName(c.sections[j].name, c.sections[k].name);
    }
  }

  /** Looking up a section ends at once: there is none, or it was visited. */
  ghost predicate Done(c: Config, section: string, visited: set<nat>) {
    var at := Find(c, section);
    at.None? || at.value in visited
  }

  /** The search after n steps up the chain: the entry was not met, and what was visited is in the cache. */
  ghost predicate Searching(c: Config, start: Option<nat>, n: nat, at: Option<nat>, entry: string,
                            visited: set<nat>, cache: set<string>)
    requires InConfig(c, start)
  {
    && at == Reach(c, start, n) && (forall m: nat :: m < n ==> Misses(c, Reach(c, start, m), entry))
    && Caches(c, visited, cache) && (n > 0 ==> start.Some? && start.value in visited)
  }

  function Names(c: Config): set<string> {
    set s | s in c.sections :: s.name
  }

  lemma SearchingOneMore(c: Config, start: Option<nat>, n: nat, k: nat, entry: string,
                                            visited: set<nat>, cache: set<string>)
    requires DistinctSections(c.sections) && InConfig(c, start) && k < |c.sections|
    requires Searching(c, start, n, Some(k), entry, visited, cache) && c.sections[k].name !in cache
    requires Lookup(c.sections[k].entries, entry).None?
    ensures Searching(c, start, n + 1, Next(c, k), entry, visited + {k}, cache + {c.sections[k].name})
    ensures Exhausted(c, visited, entry, Some(k)) ==> Exhausted(c, visited + {k}, entry, Next(c, k))
    ensures Names(c) - (cache + {c.sections[k].name}) < Names(c) - cache
  {
    CachesOneMore(c, visited, cache, k);
    assert c.sections[k].name in Names(c) - cache;
  }

  /** What a search says, if the cache was harmless, and what it leaves in the cache. */
  ghost predicate Searched(c: Config, section: string, entry: string, visited: set<nat>, cache: set<string>,
                           value: Option<string>, seen: set<nat>, cached: set<string>)
  {
    && (Exhausted(c, visited, entry, None) ==>
          && value == Found(c, Find(c, section), entry)
          && (value.None? ==> Exhausted(c, seen, entry, None)))
    && (value.None? ==> Caches(c, seen, cached) && Done(c, section, seen))
    && (Done(c, section, visited) ==> value == None && cached == cache && seen == visited)
  }

  /** The loop: nothing was met so far, and the exhausted sections stay exhausted. */
  ghost predicate SearchGoesOn(c: Config, section: string, n: nat, at: Option<nat>, entry: string,
                               visited: set<nat>, cache: set<string>, seen: set<nat>, cached: set<string>)
  {
    && InConfig(c, at) && Searching(c, Find(c, section), n, at, entry, seen, cached)
    && (if n == 0 then cached == cache && seen == visited else !Done(c, section, visited))
    && (Exhausted(c, visited, entry, None) ==> Exhausted(c, seen, entry, at))
  }

  lemma SearchFails(c: Config, section: string, n: nat, at: Option<nat>, entry: string,
                                       visited: set<nat>, cache: set<string>, seen: set<nat>, cached: set<string>)
    requires SearchGoesOn(c, section, n, at, entry, visited, cache, seen, cached)
    requires at.None? || c.sections[at.value].name in cached
    ensures Searched(c, section, entry, visited, cache, None, seen, cached)
  {
    if Exhausted(c, visited, entry, None) {
      NeverMet(c, seen, entry, Find(c, section), n);
      AnswerUnique(c, Find(c, section), entry, None, Found(c, Find(c, section), entry));
    }
  }

  lemma SearchMeets(c: Config, section: string, n: nat, at: Option<nat>, entry: string, value: string,
                                       visited: set<nat>, cache: set<string>, seen: set<nat>, cached: set<string>)
    requires SearchGoesOn(c, section, n, at, entry, visited, cache, seen, cached)
    requires at.Some? && c.sections[at.value].name !in cached
    requires Lookup(c.sections[at.value].entries, entry) == Some(value)
    ensures Searched(c, section, entry, visited, cache, Some(value), seen, cached)
  {
    assert Meets(c, Find(c, section), n, entry, value);
    AnswerUnique(c, Find(c, section), entry, Some(value), Found(c, Find(c, section), entry));
  }

  lemma SearchOneMore(c: Config, section: string, n: nat, k: nat, entry: string,
                                         visited: set<nat>, cache: set<string>, seen: set<nat>, cached: set<string>)
    requires DistinctSections(c.sections) && k < |c.sections|
    requires SearchGoesOn(c, section, n, Some(k), entry, visited, cache, seen, cached)
    requires c.sections[k].name !in cached && Lookup(c.sections[k].entries, entry).None?
    ensures SearchGoesOn(c, section, n + 1, Next(c, k), entry, visited, cache,
                         seen + {k}, cached + {c.sections[k].name})
    ensures Names(c) - (cached + {c.sections[k].name}) < Names(c) - cached
  {
    SearchingOneMore(c, Find(c, section), n, k, entry, seen, cached);
  }

  /** The loop of get and fuzzy_get as a function: up the chain until the entry is met, or a section that the cache
      has. */
  function Climb(c: Config, at: Option<nat>, entry: string, cache: set<string>): (r: (Option<string>, set<string>))
    requires at.Some? ==> at.value < |c.sections|
    decreases Names(c) - cache
  {
    if at.None? || c.sections[at.value].name in cache then (None, cache)
    else
      var s := c.sections[at.value];
      var value := Lookup(s.entries, entry);
      if value.Some? then (value, cache)
      else
        assert s.name in Names(c) - cache;
        Climb(c, Next(c, at.value), entry, cache + {s.name})
  }

  lemma {:induction false} ClimbGoesOn(c: Config, section: string, n: nat, at: Option<nat>, entry: string,
                                       visited: set<nat>, cache: set<string>, seen: set<nat>, cached: set<string>)
    returns (last: set<nat>)
    requires DistinctSections(c.sections)
    requires SearchGoesOn(c, section, n, at, entry, visited, cache, seen, cached)
    ensures var r := Climb(c, at, entry, cached); Searched(c, section, entry, visited, cache, r.0, last, r.1)
    decreases Names(c) - cached
  {
    last := seen;
    if at.None? || c.sections[at.value].name in cached {
      SearchFails(c, section, n, at, entry, visited, cache, seen, cached);
    } else {
      var s := c.sections[at.value];
      var value := Lookup(s.entries, entry);
      if value.Some? {
        SearchMeets(c, section, n, at, entry, value.value, visited, cache, seen, cached);
      } else {
        SearchOneMore(c, section, n, at.value, entry, visited, cache, seen, cached);
        last := ClimbGoesOn(c, section, n + 1, Next(c, at.value), entry, visited, cache,
                            seen + {at.value}, cached + {s.name});
      }
    }
  }

  /** The loop gives the answer of the section's chain, if the sections in the cache lead only to each other and do not
      have the entry; and it leaves such a cache. */
  lemma SearchAnswers(c: Config, section: string, entry: string, visited: set<nat>, cache: set<string>)
    returns (seen: set<nat>)
    requires DistinctSections(c.sections) && Caches(c, visited, cache)
    ensures var r := Climb(c, Find(c, section), entry, cache);
            Searched(c, section, entry, visited, cache, r.0, seen, r.1)
  {
    seen := ClimbGoesOn(c, section, 0, Find(c, section), entry, visited, cache, visited, cache);
  }

  // ----- the chain by places -----

  /** The first entry, or section, with this name, ignoring case, is at this place. */
  ghost predicate FirstEntryAt(entries: seq<Entry>, i: nat, name: string) {
    && i < |entries| && SameName(entries[i].name, name)
    && forall k :: 0 <= k < i ==> !SameName(entries[k].name, name)
  }

  ghost predicate NoEntry(entries: seq<Entry>, name: string) {
    forall k :: 0 <= k < |entries| ==> !SameName(entries[k].name, name)
  }

  ghost predicate FirstSectionAt(c: Config, j: nat, name: string) {
    && j < |c.sections| && SameName(c.sections[j].name, name)
    && forall k :: 0 <= k < j ==> !SameName(c.sections[k].name, name)
  }

  ghost predicate NoSection(c: Config, name: string) {
    forall k :: 0 <= k < |c.sections| ==> !SameName(c.sections[k].name, name)
  }

  lemma LookupAt(entries: seq<Entry>, name: string)
    ensures forall i: nat :: FirstEntryAt(entries, i, name) ==> Lookup(entries, name) == Some(entries[i].value)
    ensures NoEntry(entries, name) <==> Lookup(entries, name) == None
  {
    EntryFromIsFirst(entries, 0, name, EntryFrom(entries, 0, name));
    forall i: nat | FirstEntryAt(entries, i, name)
      ensures EntryFrom(entries, 0, name) == i
    {
      EntryFromIsFirst(entries, 0, name, i);
    }
  }

  lemma FindAt(c: Config, name: string)
    ensures forall j: nat :: FirstSectionAt(c, j, name) <==> Find(c, name) == Some(j)
    ensures NoSection(c, name) <==> Find(c, name) == None
  {
    SectionFromIsFirst(c.sections, 0, name, SectionFrom(c.sections, 0, name));
    forall j: nat | FirstSectionAt(c, j, name)
      ensures SectionFrom(c.sections, 0, name) == j
    {
      SectionFromIsFirst(c.sections, 0, name, j);
    }
  }

  /** A section that has the entry gives its value. */
  lemma FoundHere(c: Config, k: nat, entry: string, i: nat)
    requires k < |c.sections| && FirstEntryAt(c.sections[k].entries, i, entry)
    ensures Found(c, Some(k), entry) == Some(c.sections[k].entries[i].value)
  {
    LookupAt(c.sections[k].entries, entry);
    var v := c.sections[k].entries[i].value;
    assert Meets(c, Some(k), 0, entry, v);
    AnswerUnique(c, Some(k), entry, Some(v), Found(c, Some(k), entry));
  }

  lemma {:induction false} ReachFromNext(c: Config, k: nat, n: nat)
    requires k < |c.sections|
    ensures Reach(c, Some(k), n + 1) == Reach(c, Next(c, k), n)
  {
    if n == 0 {
      assert Reach(c, Some(k), 0) == Some(k);
    } else {
      ReachFromNext(c, k, n - 1);
    }
  }

  /** Otherwise the section says what the section says that it inherits from. */
  lemma FoundAbove(c: Config, k: nat, entry: string)
    requires k < |c.sections| && NoEntry(c.sections[k].entries, entry)
    ensures Found(c, Some(k), entry) == Found(c, Next(c, k), entry)
  {
    var above := Found(c, Next(c, k), entry);
    LookupAt(c.sections[k].entries, entry);
    forall n: nat
      ensures Reach(c, Some(k), n + 1) == Reach(c, Next(c, k), n)
    {
      ReachFromNext(c, k, n);
    }
    if above.Some? {
      var n: nat :| Meets(c, Next(c, k), n, entry, above.value);
      MeetsLater(c, k, n, entry, above.value);
    } else {
      forall n: nat
        ensures Misses(c, Reach(c, Some(k), n), entry)
      {
        if n > 0 {
          var m := n - 1;
          assert Misses(c, Reach(c, Next(c, k), m), entry) && Reach(c, Some(k), m + 1) == Reach(c, Next(c, k), m);
        }
      }
    }
    AnswerUnique(c, Some(k), entry, above, Found(c, Some(k), entry));
  }

  lemma MeetsLater(c: Config, k: nat, n: nat, entry: string, v: string)
    requires k < |c.sections| && Misses(c, Some(k), entry) && Meets(c, Next(c, k), n, entry, v)
    ensures Meets(c, Some(k), n + 1, entry, v)
  {
    ReachFromNext(c, k, n);
    forall m: nat | m < n + 1
      ensures Misses(c, Reach(c, Some(k), m), entry)
    {
      if m > 0 {
        ReachFromNext(c, k, m - 1);
      }
    }
  }

  /** Without the entry, it is what the first section says that has the name which the first entry Inherits gives; and
      nothing if there is no such entry, or no such section. */
  lemma FoundFollowsInherits(c: Config, k: nat, entry: string)
    requires k < |c.sections| && NoEntry(c.sections[k].entries, entry)
    ensures forall i: nat, j: nat ::
              FirstEntryAt(c.sections[k].entries, i, "Inherits")
              && FirstSectionAt(c, j, c.sections[k].entries[i].value)
              ==> Found(c, Some(k), entry) == Found(c, Some(j), entry)
    ensures NoEntry(c.sections[k].entries, "Inherits") ==> Found(c, Some(k), entry) == None
    ensures forall i: nat ::
              FirstEntryAt(c.sections[k].entries, i, "Inherits") && NoSection(c, c.sections[k].entries[i].value)
              ==> Found(c, Some(k), entry) == None
  {
    FoundAbove(c, k, entry);
    FoundInNone(c, entry);
    LookupAt(c.sections[k].entries, "Inherits");
    forall i: nat | FirstEntryAt(c.sections[k].entries, i, "Inherits")
      ensures forall j: nat ::
                FirstSectionAt(c, j, c.sections[k].entries[i].value) <==> Next(c, k) == Some(j)
      ensures NoSection(c, c.sections[k].entries[i].value) <==> Next(c, k) == None
    {
      FindAt(c, c.sections[k].entries[i].value);
    }
  }

  lemma FoundInNone(c: Config, entry: string)
    ensures Found(c, None, entry) == None
  {
    forall n: nat
      ensures Misses(c, Reach(c, None, n), entry)
    {
      NoneStays(c, n);
    }
    AnswerUnique(c, None, entry, None, Found(c, None, entry));
  }

  lemma {:induction false} NoneStays(c: Config, n: nat)
    ensures Reach(c, None, n) == None
  {
    if n > 0 {
      NoneStays(c, n - 1);
    }
  }

  /** What get gives, by places: what the first section of that name says; if that is nothing, the first global entry of
      that name; and if there is none, the default. */
  lemma GotByPlaces(c: Config, section: string, entry: string, defVal: Option<string>)
    ensures forall j: nat :: FirstSectionAt(c, j, section) && Found(c, Some(j), entry).Some?
                             ==> Got(c, section, entry, defVal) == Found(c, Some(j), entry)
    ensures NoSection(c, section) || (exists j: nat :: FirstSectionAt(c, j, section) && Found(c, Some(j), entry).None?)
            ==> && (forall i: nat :: FirstEntryAt(c.globals, i, entry)
                                     ==> Got(c, section, entry, defVal) == Some(c.globals[i].value))
                && (NoEntry(c.globals, entry) ==> Got(c, section, entry, defVal) == defVal)
  {
    FindAt(c, section);
    LookupAt(c.globals, entry);
    FoundInNone(c, entry);
  }

  /** `[a] x = 1` and `[b] Inherits = a`: x of b is 1. */
  lemma InheritedIsGot()
    ensures var c := Config([], [Section("a", [Entry("x", "1")]), Section("b", [Entry("Inherits", "a")])]);
            Got(c, "b", "x", Some("d")) == Some("1")
  {
    var c := Config([], [Section("a", [Entry("x", "1")]), Section("b", [Entry("Inherits", "a")])]);
    assert Upper("a") == "A" && Upper("b") == "B";
    assert |Upper("x")| == 1 && |Upper("Inherits")| == 8;
    assert FirstSectionAt(c, 1, "b") && FirstSectionAt(c, 0, c.sections[1].entries[0].value);
    assert FirstEntryAt(c.sections[1].entries, 0, "Inherits");
    FoundHere(c, 0, "x", 0);
    FoundFollowsInherits(c, 1, "x");
    GotByPlaces(c, "b", "x", Some("d"));
  }

  // ----- looking for several entries -----

  /** The chain of a section has the entry. */
  ghost predicate Has(c: Config, name: string, entry: string) {
    Found(c, Find(c, name), entry).Some?
  }

  /** The places of a section and an entry in the two lists. */
  datatype Place = Place(section: nat, entry: nat)

  predicate Before(p: Place, q: Place) {
    p.section < q.section || (p.section == q.section && p.entry < q.entry)
  }

  ghost predicate Hits(c: Config, names: seq<string>, entries: seq<string>, p: Place) {
    p.section < |names| && p.entry < |entries| && Has(c, names[p.section], entries[p.entry])
  }

  /** What one would hope for: section by section, and entry by entry, the first place, from one on, where the section's
      own chain has the entry. */
  ghost function FirstHit(c: Config, names: seq<string>, entries: seq<string>, i: nat, k: nat): Option<Place>
    requires i <= |names| && k <= |entries|
    decreases |names| - i, |entries| - k
  {
    if i == |names| then None
    else if k == |entries| then FirstHit(c, names, entries, i + 1, 0)
    else if Has(c, names[i], entries[k]) then Some(Place(i, k))
    else FirstHit(c, names, entries, i, k + 1)
  }

  ghost function ValueAt(c: Config, names: seq<string>, entries: seq<string>, hit: Option<Place>,
                         defVal: Option<string>): Option<string>
    requires hit.Some? ==> Hits(c, names, entries, hit.value)
  {
    if hit.Some? then Found(c, Find(c, names[hit.value.section]), entries[hit.value.entry]) else defVal
  }

  /** It is a place that hits, with none before it that does; or there is none at all. */
  lemma {:induction false} FirstHitIsFirst(c: Config, names: seq<string>, entries: seq<string>, i: nat, k: nat)
    requires i <= |names| && k <= |entries|
    ensures var r, from := FirstHit(c, names, entries, i, k), Place(i, k);
            && (r.Some? ==> Hits(c, names, entries, r.value) && !Before(r.value, from))
            && forall p :: Hits(c, names, entries, p) && !Before(p, from) ==> r.Some? && !Before(p, r.value)
    decreases |names| - i, |entries| - k
  {
    if i < |names| {
      if k == |entries| {
        FirstHitIsFirst(c, names, entries, i + 1, 0);
      } else if !Has(c, names[i], entries[k]) {
        FirstHitIsFirst(c, names, entries, i, k + 1);
      }
    }
  }

  /** For one entry this is what FoundFirst gives. */
  lemma {:induction false} FoundFirstIsFirstHit(
    c: Config, names: seq<string>, i: nat, entry: string, defVal: Option<string>)
    requires i <= |names|
    ensures FirstHit(c, names, [entry], i, 0).Some? ==> Hits(c, names, [entry], FirstHit(c, names, [entry], i, 0).value)
    ensures FoundFirst(c, names, i, entry, defVal)
            == ValueAt(c, names, [entry], FirstHit(c, names, [entry], i, 0), defVal)
    decreases |names| - i
  {
    FirstHitIsFirst(c, names, [entry], i, 0);
    if i < |names| && !Has(c, names[i], entry) {
      FoundFirstIsFirstHit(c, names, i + 1, entry, defVal);
      assert FirstHit(c, names, [entry], i, 1) == FirstHit(c, names, [entry], i + 1, 0);
    }
  }

  /** The chain of the section at this place in the list has some of the entries. */
  ghost predicate HasAny(c: Config, names: seq<string>, entries: seq<string>, i: nat)
    requires i < |names|
  {
    exists k :: 0 <= k < |entries| && Has(c, names[i], entries[k])
  }

  lemma SomeHit(c: Config, names: seq<string>, entries: seq<string>, i: nat) returns (p: Place)
    requires i < |names| && HasAny(c, names, entries, i)
    ensures p.section == i && Hits(c, names, entries, p)
  {
    var k: nat :| k < |entries| && Has(c, names[i], entries[k]);
    p := Place(i, k);
  }

  /** The first listed section whose chain has any of the entries has the first one. */
  ghost predicate FirstEntryLeads(c: Config, names: seq<string>, entries: seq<string>) {
    forall i :: 0 <= i < |names| && HasAny(c, names, entries, i)
                && (forall j :: 0 <= j < i ==> !HasAny(c, names, entries, j))
                ==> entries != [] && Has(c, names[i], entries[0])
  }

  /** Looking for the first entry alone ends at the place one would hope for exactly under this condition. */
  lemma FirstEntryIfAndOnlyIfLeads(c: Config, names: seq<string>, entries: seq<string>)
    requires entries != []
    ensures FirstHit(c, names, entries[..1], 0, 0) == FirstHit(c, names, entries, 0, 0)
            <==> FirstEntryLeads(c, names, entries)
  {
    var all, first := FirstHit(c, names, entries, 0, 0), FirstHit(c, names, entries[..1], 0, 0);
    FirstHitIsFirst(c, names, entries, 0, 0);
    FirstHitIsFirst(c, names, entries[..1], 0, 0);
    if all.Some? {
      var Place(a, b) := all.value;
      FirstHitInFirstSection(c, names, entries, a, b);
      if Has(c, names[a], entries[0]) {
        assert Hits(c, names, entries[..1], Place(a, 0)) && Hits(c, names, entries, Place(a, 0));
      }
      if first.Some? {
        assert Hits(c, names, entries, first.value);
      }
    } else {
      if first.Some? {
        assert Hits(c, names, entries, first.value);
      }
      forall i | 0 <= i < |names|
        ensures !HasAny(c, names, entries, i)
      {
        if HasAny(c, names, entries, i) {
          var p := SomeHit(c, names, entries, i);
        }
      }
    }
  }

  /** The section of the first hit is the first one that has any of the entries. */
  lemma {:induction false} FirstHitInFirstSection(c: Config, names: seq<string>, entries: seq<string>, a: nat, b: nat)
    requires Hits(c, names, entries, Place(a, b))
    requires forall p :: Hits(c, names, entries, p) ==> !Before(p, Place(a, b))
    ensures HasAny(c, names, entries, a) && forall j :: 0 <= j < a ==> !HasAny(c, names, entries, j)
    ensures FirstEntryLeads(c, names, entries) <==> Has(c, names[a], entries[0])
  {
    forall j | 0 <= j < a
      ensures !HasAny(c, names, entries, j)
    {
      if HasAny(c, names, entries, j) {
        var p := SomeHit(c, names, entries, j);
      }
    }
    LeadsInFirst(c, names, entries, a);
  }

  lemma {:induction false} LeadsInFirst(c: Config, names: seq<string>, entries: seq<string>, a: nat)
    requires entries != [] && a < |names| && HasAny(c, names, entries, a)
    requires forall j :: 0 <= j < a ==> !HasAny(c, names, entries, j)
    ensures FirstEntryLeads(c, names, entries) <==> Has(c, names[a], entries[0])
  {
  }

  /** So then the first entry alone gives the value that one would hope for. */
  lemma FirstEntryGivesValue(c: Config, names: seq<string>, entries: seq<string>, defVal: Option<string>)
    requires entries != [] && FirstEntryLeads(c, names, entries)
    ensures FirstHit(c, names, entries, 0, 0).Some? ==> Hits(c, names, entries, FirstHit(c, names, entries, 0, 0).value)
    ensures FoundFirst(c, names, 0, entries[0], defVal)
            == ValueAt(c, names, entries, FirstHit(c, names, entries, 0, 0), defVal)
  {
    assert entries[..1] == [entries[0]];
    FirstHitIsFirst(c, names, entries, 0, 0);
    FirstEntryIfAndOnlyIfLeads(c, names, entries);
    FoundFirstIsFirstHit(c, names, 0, entries[0], defVal);
  }

  /** A section with the second of two entries, which is not found. */
  lemma SecondEntryIsMissed()
    ensures var c, names, entries := Config([], [Section("s", [Entry("b", "x")])]), ["s"], ["a", "b"];
            && FirstHit(c, names, entries, 0, 0) == Some(Place(0, 1)) && Found(c, Find(c, "s"), "b") == Some("x")
            && FoundFirst(c, names, 0, "a", None) == None
  {
    var es := [Entry("b", "x")];
    var c, names, entries := Config([], [Section("s", es)]), ["s"], ["a", "b"];
    SectionFromIsFirst(c.sections, 0, "s", 0);
    assert Upper("a") == "A" && Upper("b") == "B";
    EntryFromIsFirst(es, 0, "a", 1);
    EntryFromIsFirst(es, 0, "b", 0);
    assert |Upper("Inherits")| == 8;
    EntryFromIsFirst(es, 0, "Inherits", 1);
    assert Meets(c, Some(0), 0, "b", "x");
    AnswerUnique(c, Some(0), "b", Some("x"), Found(c, Some(0), "b"));
    forall n: nat
      ensures Misses(c, Reach(c, Some(0), n), "a")
    {
      StaysVisited(c, {0}, "a", Some(0), 0, n);
    }
    AnswerUnique(c, Some(0), "a", None, Found(c, Some(0), "a"));
    assert !Has(c, names[0], entries[0]) && Has(c, names[0], entries[1]);
  }

  // ----- setting an entry -----

  /** WvConf::set: a new section is made only for a value; the section is left alone if it has that value already. */
  function ConfSet(c: Config, section: string, entry: string, value: string): (r: (Config, bool)) {
    var i := SectionFrom(c.sections, 0, section);
    if i == |c.sections| then
      if value == "" then (c, false)
      else (c.(sections := c.sections + [Section(section, SetEntry([], entry, value))]), true)
    else
      var s := c.sections[i];
      if OldValue(s, entry) == value then (c, false)
      else (c.(sections := c.sections[i := s.(entries := SetEntry(s.entries, entry, value))]), true)
  }

  function OldValue(s: Section, entry: string): string {
    match Lookup(s.entries, entry) case Some(v) => v case None => ""
  }

  /** A set that writes what is there already: the entry is looked for under the name as it is given, and set under the
      name without white space around it. */
  predicate SetsInVain(c: Config, section: string, entry: string, value: string) {
    var i := SectionFrom(c.sections, 0, section);
    && i < |c.sections| && OldValue(c.sections[i], entry) != value
    && Lookup(c.sections[i].entries, Trim(entry)) == if value == "" then None else Some(value)
  }

  /** The dirty flag tells whether something changes, except exactly when a set is in vain: then it is raised although
      nothing changes. */
  lemma DirtyIffChanged(c: Config, section: string, entry: string, value: string)
    ensures var r := ConfSet(c, section, entry, value);
            && ((r.1 <==> r.0 != c) <==> !SetsInVain(c, section, entry, value))
            && (r.0 != c ==> r.1)
  {
    var i, r := SectionFrom(c.sections, 0, section), ConfSet(c, section, entry, value);
    if i < |c.sections| {
      var s := c.sections[i];
      SetChanges(s.entries, entry, value);
      assert c.sections[i := s] == c.sections;
      assert r.1 ==> r.0.sections[i].entries == SetEntry(s.entries, entry, value);
    } else if value != "" {
      assert |r.0.sections| != |c.sections|;
    }
  }

  /** Setting an entry changes nothing exactly if the section says the same already. */
  lemma SetChanges(entries: seq<Entry>, entry: string, value: string)
    ensures SetEntry(entries, entry, value) == entries
            <==> Lookup(entries, Trim(entry)) == if value == "" then None else Some(value)
  {
    var now, e := SetEntry(entries, entry, value), EntryFrom(entries, 0, Trim(entry));
    if e < |entries| && value != "" {
      assert now[e].value == value;
    } else if e < |entries| || value != "" {
      assert |now| != |entries|;
    }
  }

  /** So the flag is exact for an entry name without white space around it. */
  lemma DirtyExactIfTrimmed(c: Config, section: string, entry: string, value: string)
    requires IsTrimmed(entry)
    ensures ConfSet(c, section, entry, value).1 <==> ConfSet(c, section, entry, value).0 != c
  {
    TrimmedStays(entry);
    DirtyIffChanged(c, section, entry, value);
  }

  /** A set in vain. */
  lemma DirtyWithoutChange()
    ensures var c := Config([], [Section("s", [Entry("a", "x")])]);
            SetsInVain(c, "s", " a", "x") && ConfSet(c, "s", " a", "x") == (c, true)
  {
    var es := [Entry("a", "x")];
    var c := Config([], [Section("s", es)]);
    assert Upper("a") == "A" && Upper(" a") == " A";
    assert Trim(" a") == "a" by {
      SpanIs(" a", 1, c => !IsSpace(c));
    }
    EntryFromIsFirst(es, 0, "a", 0);
    EntryFromIsFirst(es, 0, " a", 1);
    SectionFromIsFirst(c.sections, 0, "s", 0);
    DirtyIffChanged(c, "s", " a", "x");
  }

  lemma SectionStays(c: Config, section: string, entry: string, value: string)
    ensures SectionFrom(ConfSet(c, section, entry, value).0.sections, 0, section) == SectionFrom(c.sections, 0, section)
  {
    var d, i := ConfSet(c, section, entry, value).0, SectionFrom(c.sections, 0, section);
    SectionFromIsFirst(c.sections, 0, section, i);
    assert forall k :: 0 <= k < |c.sections| ==> d.sections[k].name == c.sections[k].name;
    SectionFromIsFirst(d.sections, 0, section, i);
  }

  /** What a section gives for a name after set of WvConf, whatever entries it has. */
  function ValueAfterSet(s: Section, entry: string, value: string, other: string): string {
    if OldValue(s, entry) == value || !SameName(Trim(entry), other) then OldValue(s, other)
    else if value != "" then value
    else if LookupNext(s.entries, Trim(entry)).Some? then LookupNext(s.entries, Trim(entry)).value
    else ""
  }

  /** Setting an entry changes the list in one place: the first entry of that name gets the value, or goes for an empty
      one; without such an entry, one is added at the end for a value. */
  lemma SetByPlaces(entries: seq<Entry>, name: string, value: string)
    ensures forall i: nat :: FirstEntryAt(entries, i, Trim(name)) ==>
              SetEntry(entries, name, value)
              == entries[..i] + (if value == "" then [] else [Entry(entries[i].name, value)]) + entries[i + 1..]
    ensures NoEntry(entries, Trim(name)) ==>
              SetEntry(entries, name, value) == entries + if value == "" then [] else [Entry(Trim(name), value)]
  {
    EntryFromIsFirst(entries, 0, Trim(name), EntryFrom(entries, 0, Trim(name)));
    forall i: nat | FirstEntryAt(entries, i, Trim(name))
      ensures EntryFrom(entries, 0, Trim(name)) == i
    {
      EntryFromIsFirst(entries, 0, Trim(name), i);
    }
  }

  /** Setting an entry changes the first section of that name and nothing else; without such a section, one with this
      entry alone is added at the end for a value. */
  lemma OnlyThatSectionChanges(c: Config, section: string, entry: string, value: string)
    ensures var now := ConfSet(c, section, entry, value).0;
            && now.globals == c.globals
            && (forall i: nat :: FirstSectionAt(c, i, section) ==>
                  exists entries: seq<Entry> ::
                    && now.sections == c.sections[i := Section(c.sections[i].name, entries)]
                    && (entries == SetEntry(c.sections[i].entries, entry, value)
                        || (entries == c.sections[i].entries && OldValue(c.sections[i], entry) == value)))
            && (NoSection(c, section) ==>
                  now.sections
                  == c.sections + if value == "" then [] else [Section(section, [Entry(Trim(entry), value)])])
  {
    FindAt(c, section);
    SetByPlaces([], entry, value);
    assert [] + [Entry(Trim(entry), value)] == [Entry(Trim(entry), value)];
    forall i: nat | FirstSectionAt(c, i, section)
      ensures SectionFrom(c.sections, 0, section) == i
    {
      assert Find(c, section) == Some(i);
    }
    var i := SectionFrom(c.sections, 0, section);
    if i < |c.sections| {
      assert c.sections[i := Section(c.sections[i].name, c.sections[i].entries)] == c.sections;
    }
  }

  /** After set, the section gives the value for the entry, unless it had that value already, or the value is empty and
      a second entry of that name comes to light; it gives what it gave before for every other name. There is no section
      only if there was none and the value is empty. */
  lemma LookupAfterConfSet(c: Config, section: string, entry: string, value: string, other: string)
    ensures var was, now := c.sections, ConfSet(c, section, entry, value).0.sections;
            var i := SectionFrom(was, 0, section);
            && SectionFrom(now, 0, section) == i
            && (i == |now| ==> value == "")
            && (i < |now| ==>
                  OldValue(now[i], other)
                  == ValueAfterSet(if i < |was| then was[i] else Section(section, []), entry, value, other))
  {
    SectionStays(c, section, entry, value);
    var i, now := SectionFrom(c.sections, 0, section), ConfSet(c, section, entry, value).0.sections;
    if i < |now| {
      var s := if i < |c.sections| then c.sections[i] else Section(section, []);
      LookupAfterSet(s.entries, entry, value, other);
      assert now[i] == if OldValue(s, entry) == value then s else s.(entries := SetEntry(s.entries, entry, value));
    }
  }

  /** For a trimmed name, the section gives the value after set exactly if it is not empty, or was given already, or no
      second entry of that name has a value. */
  lemma SetTakesEffect(c: Config, section: string, entry: string, value: string)
    requires IsTrimmed(entry)
    ensures var was, now := c.sections, ConfSet(c, section, entry, value).0.sections;
            var i := SectionFrom(was, 0, section);
            i < |now| ==>
              (OldValue(now[i], entry) == value
               <==> value != "" || i == |was| || OldValue(was[i], entry) == ""
                     || LookupNext(was[i].entries, entry) in {None, Some("")})
  {
    TrimmedStays(entry);
    LookupAfterConfSet(c, section, entry, value, entry);
  }
}
