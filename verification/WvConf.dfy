/** WvConf and its sections (wvconf.cc, cfgsection.cc): lists of entries that are changed in place. */
module WvConfs {
  import opened Optional
  import opened Slices
  import opened Text
  import opened ConfModel
  import opened ConfLookup

  class WvConfigSection {
    const name: string
    var entries: seq<Entry>

    constructor (name: string)
      ensures this.name == name && entries == []
    {
      this.name, entries := name, [];
    }

    function Value(): Section
      reads this
    {
      Section(name, entries)
    }

    /** operator[]: the place of the first entry with this name. */
    method IndexOf(ename: string) returns (i: nat)
      ensures i == EntryFrom(entries, 0, ename)
    {
      i := 0;
      while i < |entries| && !SameName(entries[i].name, ename)
        invariant i <= |entries| && EntryFrom(entries, 0, ename) == EntryFrom(entries, i, ename)
      {
        i := i + 1;
      }
    }

    /** get, with None for the null pointer. */
    method Get(entry: string) returns (value: Option<string>)
      ensures value == Lookup(entries, entry)
    {
      var i := IndexOf(entry);
      value := if i < |entries| then Some(entries[i].value) else None;
    }

    method Set(entry: string, value: string)
      modifies this
      ensures entries == SetEntry(old(entries), entry, value)
    {
      var cleanEntry := Trim(entry);
      var i := IndexOf(cleanEntry);
      if value == "" {
        if i < |entries| {
          entries := Without(entries, i);
        }
        return;
      }
      if i < |entries| {
        entries := entries[i := entries[i].(value := value)];
      } else {
        entries := entries + [Entry(cleanEntry, value)];
      }
    }

    method QuickSet(entry: string, value: string)
      modifies this
      ensures entries == old(entries) + [Entry(Trim(entry), value)]
    {
      entries := entries + [Entry(Trim(entry), value)];
    }

    /** dump: rest is whatever will be printed after it. */
    method Dump(fp: string, ghost rest: string) returns (out: string)
      ensures out + rest == fp + Dumped(entries, 0, rest)
    {
      out := fp;
      for i := 0 to |entries|
        invariant out + Dumped(entries, i, rest) == fp + Dumped(entries, 0, rest)
      {
        var e := entries[i];
        ghost var before := out;
        if e.value != "" {
          out := out + (e.name + " = " + e.value + "\n");
        } else {
          out := out + (e.name + " =" + "\n");
        }
        Joined(before, EntryLine(e) + "\n", Dumped(entries, i + 1, rest));
      }
    }
  }

  /** What a list of sections stands for. */
  function Values(sections: seq<WvConfigSection>): (r: seq<Section>)
    reads sections
    ensures |r| == |sections|
  {
    seq(|sections|, i requires 0 <= i < |sections| reads sections => sections[i].Value())
  }

  lemma SameNamesDistinct(was: seq<Section>, now: seq<Section>)
    requires DistinctSections(was) && |now| == |was| && forall k :: 0 <= k < |was| ==> now[k].name == was[k].name
    ensures DistinctSections(now)
  {
  }

  ghost predicate AllDifferent(sections: seq<WvConfigSection>) {
    forall i, j :: 0 <= i < j < |sections| ==> sections[i] != sections[j]
  }

  lemma {:induction false} NextLine(st: Loading, text: string, end: Loading)
    requires Ends(st, text, end) && text != ""
    ensures var n := Span(text, c => c == '\n');
            Ends(TakeLine(st, text[..n]), if n < |text| then text[n + 1..] else "", end)
  {
  }

  lemma {:induction false} NothingLeft(st: Loading, end: Loading)
    requires Ends(st, "", end)
    ensures st == end
  {
  }

  class WvConf {
    const globalsection: WvConfigSection
    var sections: seq<WvConfigSection>
    var dirty: bool

    ghost predicate Valid()
      reads this, sections
    {
      globalsection !in sections && AllDifferent(sections) && DistinctSections(Values(sections))
    }

    ghost function View(): Config
      reads this, globalsection, sections
    {
      Config(globalsection.entries, Values(sections))
    }

    constructor ()
      ensures Valid() && View() == Config([], []) && !dirty
      ensures fresh(globalsection) && sections == []
    {
      globalsection := new WvConfigSection("");
      sections, dirty := [], false;
    }

    /** operator[]: the section with this name, or null. */
    method At(section: string) returns (s: WvConfigSection?, ghost at: Option<nat>)
      requires Valid()
      ensures at == Find(View(), section) && InConfig(View(), at)
      ensures s == if at.Some? then sections[at.value] else null
    {
      var i := 0;
      while i < |sections| && !SameName(sections[i].name, section)
        invariant i <= |sections|
        invariant SectionFrom(Values(sections), 0, section) == SectionFrom(Values(sections), i, section)
      {
        i := i + 1;
      }
      s := if i < |sections| then sections[i] else null;
      at := if i < |sections| then Some(i) else None;
    }

    /** The loop of get and fuzzy_get: up the chain until the entry is met, or a section that the cache has. */
    method Search(section: string, entry: string, cache: set<string>)
      returns (value: Option<string>, cached: set<string>)
      requires Valid()
      ensures (value, cached) == Climb(View(), Find(View(), section), entry, cache)
    {
      value, cached := None, cache;
      var s: WvConfigSection?;
      ghost var at: Option<nat>;
      s, at := At(section);
      ghost var start := at;
      while s != null && s.name !in cached
        invariant at.Some? ==> at.value < |sections|
        invariant s == if at.Some? then sections[at.value] else null
        invariant Climb(View(), at, entry, cached) == Climb(View(), start, entry, cache)
        decreases Names(View()) - cached
      {
        var ret := s.Get(entry);
        if ret.Some? {
          return ret, cached;
        }
        assert s.name in Names(View()) - cached;
        cached := cached + {s.name};
        s, at := Parent(s, at.value);
      }
    }

    /** The section that a section inherits from, or null. */
    method Parent(s: WvConfigSection, ghost k: nat) returns (parent: WvConfigSection?, ghost at: Option<nat>)
      requires Valid() && k < |sections| && s == sections[k]
      ensures at == Next(View(), k)
      ensures parent == if at.Some? then sections[at.value] else null
    {
      var inherits := s.Get("Inherits");
      if inherits.Some? {
        parent, at := At(inherits.value);
      } else {
        parent, at := null, None;
      }
    }

    /** get. */
    method Get(section: string, entry: string, defVal: Option<string>) returns (value: Option<string>)
      requires Valid()
      ensures value == Got(View(), section, entry, defVal)
    {
      ghost var seen := SearchAnswers(View(), section, entry, {}, {});
      var ret, _ := Search(section, entry, {});
      if ret.Some? {
        return ret;
      }
      var e := globalsection.Get(entry);
      value := if e.Some? then e else defVal;
    }

    /** fuzzy_get for one entry: one cache for all the sections, and yet the answer is that of the first section whose
        own chain has one. */
    method FuzzyGet(names: seq<string>, entry: string, defVal: Option<string>) returns (value: Option<string>)
      requires Valid()
      ensures value == FoundFirst(View(), names, 0, entry, defVal)
    {
      var cache: set<string> := {};
      ghost var visited: set<nat> := {};
      ghost var goal := FoundFirst(View(), names, 0, entry, defVal);
      var i := 0;
      while i < |names|
        invariant i <= |names|
        invariant Caches(View(), visited, cache) && Exhausted(View(), visited, entry, None)
        invariant FoundFirst(View(), names, i, entry, defVal) == goal
      {
        var ret;
        visited := SearchAnswers(View(), names[i], entry, visited, cache);
        ret, cache := Search(names[i], entry, cache);
        if ret.Some? {
          return ret;
        }
        i := i + 1;
      }
      return defVal;
    }

    /** fuzzy_get for several entries. The cache is shared by the entries too, so that a section in which the first
        entry was looked for is not visited for another one: the first entry is the only one that is ever found. */
    method FuzzyGetAll(names: seq<string>, entries: seq<string>, defVal: Option<string>) returns (value: Option<string>)
      requires Valid()
      ensures value == if entries == [] then defVal else FoundFirst(View(), names, 0, entries[0], defVal)
    {
      var cache: set<string> := {};
      ghost var visited: set<nat> := {};
      var i := 0;
      while i < |names|
        invariant i <= |names| && Harmless(entries, visited, cache)
        invariant entries != [] ==> FoundFirst(View(), names, 0, entries[0], defVal)
                                    == FoundFirst(View(), names, i, entries[0], defVal)
      {
        var ret;
        ret, cache, visited := SearchEntries(names[i], entries, cache, visited);
        if ret.Some? {
          return ret;
        }
        i := i + 1;
      }
      return defVal;
    }

    /** The cache holds visited sections that do not have the first of the entries and lead only to each other. */
    ghost predicate Harmless(entries: seq<string>, visited: set<nat>, cache: set<string>)
      reads this, globalsection, sections
    {
      Caches(View(), visited, cache) && (entries != [] ==> Exhausted(View(), visited, entries[0], None))
    }

    /** The inner loop of fuzzy_get for several entries: after the search for the first one, all others end at once. */
    method SearchEntries(section: string, entries: seq<string>, cache: set<string>, ghost visited: set<nat>)
      returns (ret: Option<string>, cached: set<string>, ghost seen: set<nat>)
      requires Valid() && Harmless(entries, visited, cache)
      ensures ret == if entries == [] then None else Found(View(), Find(View(), section), entries[0])
      ensures ret.None? ==> Harmless(entries, seen, cached)
    {
      ret, cached, seen := None, cache, visited;
      var k := 0;
      while k < |entries|
        invariant k <= |entries| && Harmless(entries, seen, cached) && ret == None
        invariant k > 0 ==> Done(View(), section, seen) && Found(View(), Find(View(), section), entries[0]) == None
      {
        ghost var before := seen;
        seen := SearchAnswers(View(), section, entries[k], before, cached);
        ret, cached := Search(section, entries[k], cached);
        if ret.Some? {
          return;
        }
        k := k + 1;
      }
    }

    /** set. */
    method Set(section: string, entry: string, value: string)
      requires Valid()
      modifies this`sections, this`dirty, sections
      ensures Valid() && View() == ConfSet(old(View()), section, entry, value).0
      ensures dirty == (old(dirty) || ConfSet(old(View()), section, entry, value).1)
    {
      var s, at := At(section);
      if s == null {
        if value == "" {
          return;
        }
        s, at := AddSection(section);
        assert Lookup([], entry) == None;
      }
      SetIn(s, at.value, entry, value);
    }

    /** The part of set in the section. */
    method SetIn(s: WvConfigSection, ghost i: nat, entry: string, value: string)
      requires Valid() && i < |sections| && s == sections[i]
      modifies this`dirty, s
      ensures Valid()
      ensures var was := old(View()).sections[i];
              if OldValue(was, entry) == value then View() == old(View()) && dirty == old(dirty)
              else
                && dirty && View().globals == old(View()).globals
                && View().sections == old(View()).sections[i := was.(entries := SetEntry(was.entries, entry, value))]
    {
      var oldval := s.Get(entry);
      if (if oldval.Some? then oldval.value else "") != value {
        ghost var was := Values(sections);
        s.Set(entry, value);
        assert Values(sections) == was[i := s.Value()];
        SameNamesDistinct(was, Values(sections));
        dirty := true;
      }
    }

    /** Appends a new section with a name that is not there yet. */
    method AddSection(section: string) returns (s: WvConfigSection, ghost at: Option<nat>)
      requires Valid() && Find(View(), section).None?
      modifies this`sections
      ensures Valid() && fresh(s) && sections == old(sections) + [s] && at == Some(|old(sections)|)
      ensures View() == old(View()).(sections := old(View()).sections + [Section(section, [])])
    {
      s := new WvConfigSection(section);
      at := Some(|sections|);
      ghost var was := Values(sections);
      SectionFromIsFirst(was, 0, section, |was|);
      sections := sections + [s];
      assert Values(sections) == was + [Section(section, [])];
    }

    /** save, to a file that can be written. */
    method Save() returns (text: string)
      requires Valid()
      ensures text == Saved(View())
    {
      ghost var values := Values(sections);
      text := globalsection.Dump("", DumpedSections(values, 0));
      for i := 0 to |sections|
        invariant text + DumpedSections(values, i) == Saved(View())
      {
        var sect := sections[i];
        ghost var rest := DumpedSections(values, i + 1);
        ghost var before := text;
        text := text + ("\n" + ("[" + sect.name + "]" + "\n"));
        HeadJoined(before, sect.name, Dumped(sect.entries, 0, rest));
        text := sect.Dump(text, rest);
      }
      assert text + "" == text;
    }

    /** load_file, from a file that can be read: appends what the text says. */
    method LoadFile(text: string)
      requires Valid()
      modifies this`sections, sections, globalsection
      ensures Valid() && View() == Loaded(Loading(old(View()), None, false), text).config
    {
      var rest := text;
      var sect := globalsection;
      ghost var at: Option<nat> := None;
      var quickMode := false;
      ghost var end := Loaded(Loading(View(), at, quickMode), text);
      while rest != ""
        invariant Valid() && fresh(set s | s in sections && s !in old(sections))
        invariant Ends(Loading(View(), at, quickMode), rest, end)
        invariant sect == if at.Some? then sections[at.value] else globalsection
        decreases |rest|
      {
        rest, sect, at, quickMode := LoadNext(rest, sect, at, quickMode, end);
      }
      NothingLeft(Loading(View(), at, quickMode), end);
    }

    /** One round of the loop. */
    method LoadNext(rest: string, sect: WvConfigSection, ghost at: Option<nat>, quickMode: bool, ghost end: Loading)
      returns (rest': string, sect': WvConfigSection, ghost at': Option<nat>, quick: bool)
      requires Valid() && rest != "" && Ends(Loading(View(), at, quickMode), rest, end)
      requires sect == if at.Some? then sections[at.value] else globalsection
      modifies this`sections, sections, globalsection
      ensures Valid() && |rest'| < |rest| && Ends(Loading(View(), at', quick), rest', end)
      ensures sect' == if at'.Some? then sections[at'.value] else globalsection
      ensures old(sections) <= sections && fresh(set s | s in sections && s !in old(sections))
    {
      NextLine(Loading(View(), at, quickMode), rest, end);
      var n := Span(rest, c => c == '\n');
      sect', at', quick := LoadLine(rest[..n], sect, at, quickMode);
      rest' := if n < |rest| then rest[n + 1..] else "";
    }

    /** One line of load_file. */
    method LoadLine(raw: string, sect: WvConfigSection, ghost at: Option<nat>, quickMode: bool)
      returns (sect': WvConfigSection, ghost at': Option<nat>, quick: bool)
      requires Valid() && Sound(Loading(View(), at, quickMode))
      requires sect == if at.Some? then sections[at.value] else globalsection
      modifies this`sections, sections, globalsection
      ensures Valid() && Loading(View(), at', quick) == TakeLine(Loading(old(View()), at, quickMode), raw)
      ensures sect' == if at'.Some? then sections[at'.value] else globalsection
      ensures old(sections) <= sections && fresh(set s | s in sections && s !in old(sections))
    {
      var line := Cleaned(raw);
      sect', at', quick := sect, at, quickMode;
      if IsHead(line) {
        sect', at', quick := Enter(Trim(line[1..|line| - 1]), at, quickMode);
      } else {
        var name, value := NameIn(line), ValueIn(line);
        if name != "" {
          ghost var was := Values(sections);
          if quickMode {
            sect.QuickSet(name, value);
          } else {
            sect.Set(name, value);
          }
          assert Values(sections) == if at.Some? then was[at.value := sect.Value()] else was;
          SameNamesDistinct(was, Values(sections));
        }
      }
    }

    /** The head of a section: a blank name stands for the global one. */
    method Enter(name: string, ghost was: Option<nat>, ghost wasQuick: bool)
      returns (sect: WvConfigSection, ghost at: Option<nat>, quick: bool)
      requires Valid()
      modifies this`sections
      ensures Valid() && Loading(View(), at, quick) == EnterSection(Loading(old(View()), was, wasQuick), name)
      ensures sect == if at.Some? then sections[at.value] else globalsection
      ensures old(sections) <= sections && fresh(set s | s in sections && s !in old(sections))
    {
      if name == "" {
        return globalsection, None, false;
      }
      var s, found := At(name);
      if s != null {
        return s, found, false;
      }
      sect, at := AddSection(name);
      quick := true;
    }
  }

  lemma HeadJoined(text: string, name: string, rest: string)
    ensures text + ("\n" + ("[" + name + "]" + "\n")) + rest == text + ("\n" + ("[" + name + "]" + "\n" + rest))
  {
  }
}
