/**
 Saving a WvConf and loading the file into an empty one: it comes back the same exactly when it is something that
 loading can produce, and so a configuration that was loaded always comes back the same.
 */
module ConfRoundTrip {
  import opened Optional
  import opened Slices
  import opened Text
  import opened ConfModel
  import opened ConfLookup

  /** One line of text, without the white space around it. */
  predicate Clean(s: string) {
    IsTrimmed(s) && forall k :: 0 <= k < |s| ==> s[k] != '\n' && s[k] != '\0'
  }

  predicate GoodEntry(e: Entry) {
    && Clean(e.name) && Clean(e.value) && e.name != ""
    && (forall k :: 0 <= k < |e.name| ==> e.name[k] != '=')
    && !IsHead(EntryLine(e))
  }

  predicate GoodSectionName(name: string) {
    Clean(name) && name != "" && forall k :: 0 <= k < |name| ==> name[k] != ']'
  }

  ghost predicate GoodEntries(entries: seq<Entry>) {
    forall k :: 0 <= k < |entries| ==> GoodEntry(entries[k])
  }

  ghost predicate GoodGlobals(globals: seq<Entry>) {
    DistinctEntries(globals) && GoodEntries(globals) && forall k :: 0 <= k < |globals| ==> globals[k].value != ""
  }

  /** In a section, names may be repeated and values may be empty. */
  ghost predicate GoodSection(s: Section) {
    GoodSectionName(s.name) && GoodEntries(s.entries)
  }

  ghost predicate Good(c: Config) {
    && GoodGlobals(c.globals) && DistinctSections(c.sections)
    && forall k :: 0 <= k < |c.sections| ==> GoodSection(c.sections[k])
  }

  // ----- what was saved comes back -----

  /** Loading one text from one state comes to the same end as loading the other from the other. */
  ghost predicate LeadsTo(st: Loading, text: string, st': Loading, rest: string) {
    forall end {:trigger Ends(st, text, end)} :: Ends(st, text, end) <==> Ends(st', rest, end)
  }

  lemma LeadsOn(st: Loading, text: string, st': Loading, rest: string, st'': Loading, rest': string)
    requires LeadsTo(st, text, st', rest) && LeadsTo(st', rest, st'', rest')
    ensures LeadsTo(st, text, st'', rest')
  {
    forall end
      ensures Ends(st, text, end) <==> Ends(st'', rest', end)
    {
      assert Ends(st, text, end) <==> Ends(st', rest, end);
    }
  }

  lemma LeadsHome(st: Loading, text: string, st': Loading)
    requires LeadsTo(st, text, st', "") && Sound(st)
    ensures Loaded(st, text) == st'
  {
    assert Ends(st, text, Loaded(st, text));
    assert Ends(st', "", Loaded(st, text));
  }

  lemma LineLoaded(st: Loading, line: string, rest: string)
    requires Sound(st) && forall k :: 0 <= k < |line| ==> line[k] != '\n'
    ensures LeadsTo(st, line + "\n" + rest, TakeLine(st, line), rest)
  {
    var text := line + "\n" + rest;
    SpanIs(text, |line|, c => c == '\n');
    assert text[..|line|] == line && text[|line| + 1..] == rest;
    assert Loaded(st, text) == Loaded(TakeLine(st, line), rest);
  }

  lemma CleanedStays(line: string)
    requires Clean(line)
    ensures Cleaned(line) == line
  {
    SpanIs(line, |line|, c => c == '\0');
    assert line[..|line|] == line;
    TrimmedStays(line);
  }

  lemma TrimAfterSpace(s: string)
    requires IsTrimmed(s)
    ensures Trim(" " + s) == s && Trim(s + " ") == s
  {
    TrimmedBefore(s, ' ');
    if s == "" {
      assert TrimEnd(" ") == "";
    } else {
      assert (" " + s)[|s|] == s[|s| - 1];
      SpanIs(" " + s, 1, c => !IsSpace(c));
      assert (" " + s)[1..] == s;
    }
  }

  lemma EntryLineTaken(st: Loading, e: Entry)
    requires Sound(st) && GoodEntry(e)
    ensures TakeLine(st, EntryLine(e)) == AddValue(st, e.name, e.value)
    ensures Clean(EntryLine(e))
  {
    EntryLineClean(e);
    CleanedStays(EntryLine(e));
    EntryLineParts(e);
  }

  /** The line of an entry falls into its name and its value again. */
  lemma EntryLineParts(e: Entry)
    requires GoodEntry(e)
    ensures NameIn(EntryLine(e)) == e.name && ValueIn(EntryLine(e)) == e.value
  {
    var line, q := EntryLine(e), |e.name| + 1;
    EntryLineCut(e, line, q);
    SpanIs(line, q, c => c == '=');
    TrimAfterSpace(e.name);
    if e.value != "" {
      TrimAfterSpace(e.value);
    }
  }

  lemma EntryLineCut(e: Entry, line: string, q: nat)
    requires line == EntryLine(e) && q == |e.name| + 1
    ensures q < |line| && line[..q] == e.name + " " && line[q] == '='
    ensures line[q + 1..] == if e.value == "" then "" else " " + e.value
    ensures forall k :: 0 <= k < q ==> line[k] == if k < |e.name| then e.name[k] else ' '
  {
  }

  lemma EntryLineClean(e: Entry)
    requires Clean(e.name) && Clean(e.value) && e.name != ""
    ensures Clean(EntryLine(e))
  {
    var line := EntryLine(e);
    assert line[0] == e.name[0];
    if e.value != "" {
      assert line[|line| - 1] == e.value[|e.value| - 1];
    }
  }

  lemma HeadTaken(st: Loading, name: string)
    requires Sound(st) && GoodSectionName(name)
    ensures TakeLine(st, "[" + name + "]") == EnterSection(st, name)
  {
    BracketsTaken(st, name);
    TrimmedStays(name);
  }

  /** A line is a section head exactly if it is a text without ']' in brackets. */
  lemma HeadIs(line: string)
    ensures IsHead(line) <==> |line| >= 2 && exists name :: line == "[" + name + "]" && ']' !in name
  {
    SpanStops(line, c => c == ']');
    if IsHead(line) && |line| >= 2 {
      var name := line[1..|line| - 1];
      assert line == "[" + name + "]";
    }
    forall name | line == "[" + name + "]" && ']' !in name
      ensures IsHead(line)
    {
      SpanIs(line, |line| - 1, c => c == ']');
    }
  }

  /** A head with a blank name leads to the global entries. */
  lemma BlankHeadLoaded(st: Loading, name: string, rest: string)
    requires Sound(st) && IsBlank(name) && '\n' !in name
    ensures LeadsTo(st, "[" + name + "]" + "\n" + rest, Loading(st.config, None, false), rest)
  {
    var line := "[" + name + "]";
    BracketsTaken(st, name);
    TrimIs(name, "", "");
    assert name + "" + "" == name;
    LineLoaded(st, line, rest);
  }

  lemma BracketsTaken(st: Loading, name: string)
    requires Sound(st) && forall k :: 0 <= k < |name| ==> name[k] !in {']', '\n', '\0'}
    ensures TakeLine(st, "[" + name + "]") == EnterSection(st, Trim(name))
  {
    var line := "[" + name + "]";
    CleanedStays(line);
    SpanIs(line, |line| - 1, c => c == ']');
    assert line[1..|line| - 1] == name;
  }

  lemma BlankTaken(st: Loading)
    requires Sound(st)
    ensures TakeLine(st, "") == st
  {
  }

  lemma EntryLoaded(st: Loading, entries: seq<Entry>, i: nat, rest: string)
    requires Sound(st) && i < |entries| && GoodEntry(entries[i])
    ensures LeadsTo(st, Dumped(entries, i, rest),
                    AddValue(st, entries[i].name, entries[i].value), Dumped(entries, i + 1, rest))
  {
    EntryLineTaken(st, entries[i]);
    LineLoaded(st, EntryLine(entries[i]), Dumped(entries, i + 1, rest));
  }

  /** Loading in a new section, of which the first entries are there. */
  function InSection(before: Config, s: Section, i: nat): Loading
    requires i <= |s.entries|
  {
    Loading(before.(sections := before.sections + [Section(s.name, s.entries[..i])]), Some(|before.sections|), true)
  }

  lemma InSectionOneMore(before: Config, s: Section, i: nat)
    requires i < |s.entries| && IsTrimmed(s.entries[i].name) && s.entries[i].name != ""
    ensures AddValue(InSection(before, s, i), s.entries[i].name, s.entries[i].value) == InSection(before, s, i + 1)
  {
    var st, e := InSection(before, s, i), s.entries[i];
    var was, now := Section(s.name, s.entries[..i]), Section(s.name, s.entries[..i + 1]);
    TrimmedStays(e.name);
    assert s.entries[..i + 1] == s.entries[..i] + [e];
    LastReplaced(before.sections, was, now);
    assert PutEntry(was.entries, true, e.name, e.value) == now.entries;
    assert st.config.sections[|before.sections|] == was;
  }

  lemma LastReplaced(sections: seq<Section>, s: Section, t: Section)
    ensures (sections + [s])[|sections|] == s && (sections + [s])[|sections| := t] == sections + [t]
  {
  }

  /** The entries of a new section come back as they were. */
  lemma {:induction false} SectionLoaded(before: Config, s: Section, i: nat, rest: string)
    requires GoodSection(s) && i <= |s.entries|
    ensures LeadsTo(InSection(before, s, i), Dumped(s.entries, i, rest), InSection(before, s, |s.entries|), rest)
    decreases |s.entries| - i
  {
    if i < |s.entries| {
      EntryLoaded(InSection(before, s, i), s.entries, i, rest);
      InSectionOneMore(before, s, i);
      SectionLoaded(before, s, i + 1, rest);
      LeadsOn(InSection(before, s, i), Dumped(s.entries, i, rest), InSection(before, s, i + 1),
              Dumped(s.entries, i + 1, rest), InSection(before, s, |s.entries|), rest);
    }
  }

  function InGlobals(globals: seq<Entry>, i: nat): Loading
    requires i <= |globals|
  {
    Loading(Config(globals[..i], []), None, false)
  }

  lemma InGlobalsOneMore(globals: seq<Entry>, i: nat)
    requires GoodGlobals(globals) && i < |globals|
    ensures AddValue(InGlobals(globals, i), globals[i].name, globals[i].value) == InGlobals(globals, i + 1)
  {
    var before, e := globals[..i], globals[i];
    NotYetThere(globals, i, before);
    SetAppends(before, e);
    OneLonger(globals, i);
  }

  lemma NotYetThere(globals: seq<Entry>, i: nat, before: seq<Entry>)
    requires DistinctEntries(globals) && i < |globals| && before == globals[..i]
    ensures forall k :: 0 <= k < |before| ==> !SameName(before[k].name, globals[i].name)
  {
  }

  /** Setting a name that is not there adds it at the end. */
  lemma SetAppends(entries: seq<Entry>, e: Entry)
    requires e.value != "" && IsTrimmed(e.name) && forall k :: 0 <= k < |entries| ==> !SameName(entries[k].name, e.name)
    ensures SetEntry(entries, e.name, e.value) == entries + [e]
  {
    TrimmedStays(e.name);
    EntryFromIsFirst(entries, 0, e.name, EntryFrom(entries, 0, e.name));
  }

  /** So do the global entries, which are looked for one by one. */
  lemma {:induction false} GlobalsLoaded(globals: seq<Entry>, i: nat, rest: string)
    requires GoodGlobals(globals) && i <= |globals|
    ensures LeadsTo(InGlobals(globals, i), Dumped(globals, i, rest), InGlobals(globals, |globals|), rest)
    decreases |globals| - i
  {
    if i < |globals| {
      EntryLoaded(InGlobals(globals, i), globals, i, rest);
      InGlobalsOneMore(globals, i);
      GlobalsLoaded(globals, i + 1, rest);
      LeadsOn(InGlobals(globals, i), Dumped(globals, i, rest), InGlobals(globals, i + 1),
              Dumped(globals, i + 1, rest), InGlobals(globals, |globals|), rest);
    }
  }

  lemma BlankLoaded(st: Loading, rest: string)
    requires Sound(st)
    ensures LeadsTo(st, "\n" + rest, st, rest)
  {
    var text := "\n" + rest;
    BlankTaken(st);
    SpanIs(text, 0, c => c == '\n');
    assert text[..0] == "" && text[1..] == rest;
    assert Loaded(st, text) == Loaded(TakeLine(st, ""), rest);
  }

  lemma HeadLineLoaded(st: Loading, name: string, body: string)
    requires Sound(st) && GoodSectionName(name)
    ensures LeadsTo(st, "[" + name + "]" + "\n" + body, EnterSection(st, name), body)
  {
    HeadTaken(st, name);
    LineLoaded(st, "[" + name + "]", body);
  }

  /** The blank line and the head that save prints before a section. */
  lemma HeadLoaded(st: Loading, name: string, body: string)
    requires Sound(st) && GoodSectionName(name)
    ensures LeadsTo(st, "\n" + ("[" + name + "]" + "\n" + body), EnterSection(st, name), body)
  {
    var text := "[" + name + "]" + "\n" + body;
    BlankLoaded(st, text);
    HeadLineLoaded(st, name, body);
    LeadsOn(st, "\n" + text, st, text, EnterSection(st, name), body);
  }

  /** A section that is not there yet is added. */
  lemma SectionAdded(c: Config, i: nat, at: Option<nat>, quick: bool)
    requires Good(c) && i < |c.sections|
    ensures EnterSection(Loading(c.(sections := c.sections[..i]), at, quick), c.sections[i].name)
            == InSection(c.(sections := c.sections[..i]), c.sections[i], 0)
    ensures InSection(c.(sections := c.sections[..i]), c.sections[i], |c.sections[i].entries|)
            == Loading(c.(sections := c.sections[..i + 1]), Some(i), true)
  {
    var s := c.sections[i];
    SectionFromIsFirst(c.sections[..i], 0, s.name, i);
    assert s.entries[..0] == [] && s.entries[..|s.entries|] == s.entries;
    assert c.sections[..i + 1] == c.sections[..i] + [s];
  }

  /** Loading between sections, of which the first ones are there. */
  function Between(c: Config, i: nat, at: Option<nat>, quick: bool): Loading
    requires i <= |c.sections|
  {
    Loading(c.(sections := c.sections[..i]), at, quick)
  }

  lemma OneSectionLoaded(c: Config, i: nat, at: Option<nat>, quick: bool)
    requires Good(c) && i < |c.sections| && Sound(Between(c, i, at, quick))
    ensures LeadsTo(Between(c, i, at, quick), DumpedSections(c.sections, i),
                    Between(c, i + 1, Some(i), true), DumpedSections(c.sections, i + 1))
  {
    var s, st, before := c.sections[i], Between(c, i, at, quick), c.(sections := c.sections[..i]);
    var rest := DumpedSections(c.sections, i + 1);
    var body := Dumped(s.entries, 0, rest);
    HeadLoaded(st, s.name, body);
    SectionAdded(c, i, at, quick);
    SectionLoaded(before, s, 0, rest);
    LeadsOn(st, DumpedSections(c.sections, i), InSection(before, s, 0), body, InSection(before, s, |s.entries|), rest);
  }

  lemma {:induction false} SectionsLoaded(c: Config, i: nat, at: Option<nat>, quick: bool) returns (end: Loading)
    requires Good(c) && i <= |c.sections| && Sound(Between(c, i, at, quick))
    ensures LeadsTo(Between(c, i, at, quick), DumpedSections(c.sections, i), end, "") && end.config == c
    decreases |c.sections| - i
  {
    if i == |c.sections| {
      assert c.sections[..i] == c.sections;
      end := Between(c, i, at, quick);
    } else {
      OneSectionLoaded(c, i, at, quick);
      end := SectionsLoaded(c, i + 1, Some(i), true);
      LeadsOn(Between(c, i, at, quick), DumpedSections(c.sections, i), Between(c, i + 1, Some(i), true),
              DumpedSections(c.sections, i + 1), end, "");
    }
  }

  lemma GoodComesBack(c: Config)
    requires Good(c)
    ensures LoadedFrom(Saved(c)) == c
  {
    var globals, rest := c.globals, DumpedSections(c.sections, 0);
    assert InGlobals(globals, 0) == Empty;
    assert InGlobals(globals, |globals|) == Between(c, 0, None, false);
    GlobalsLoaded(globals, 0, rest);
    var end := SectionsLoaded(c, 0, None, false);
    LeadsOn(Empty, Saved(c), Between(c, 0, None, false), rest, end, "");
    LeadsHome(Empty, Saved(c), end);
  }

  // ----- a head that comes again -----

  /** The entries after the first n of some more were set one by one. */
  function AllSet(entries: seq<Entry>, more: seq<Entry>, n: nat): seq<Entry>
    requires n <= |more|
  {
    if n == 0 then entries
    else SetEntry(AllSet(entries, more, n - 1), more[n - 1].name, more[n - 1].value)
  }

  function WithEntries(c: Config, j: nat, entries: seq<Entry>): Config
    requires j < |c.sections|
  {
    c.(sections := c.sections[j := c.sections[j].(entries := entries)])
  }

  /** Loading in a section that was there before, of which the first n lines are read. */
  function InOldSection(c: Config, j: nat, more: seq<Entry>, n: nat): Loading
    requires j < |c.sections| && n <= |more|
  {
    Loading(WithEntries(c, j, AllSet(c.sections[j].entries, more, n)), Some(j), false)
  }

  lemma {:induction false} OldSectionOneMore(c: Config, j: nat, more: seq<Entry>, n: nat)
    requires j < |c.sections| && n < |more| && more[n].name != ""
    ensures AddValue(InOldSection(c, j, more, n), more[n].name, more[n].value) == InOldSection(c, j, more, n + 1)
  {
    var s, now := c.sections[j], AllSet(c.sections[j].entries, more, n);
    SetTwice(c.sections, j, s.(entries := now), s.(entries := SetEntry(now, more[n].name, more[n].value)));
  }

  lemma SetTwice(sections: seq<Section>, j: nat, s: Section, t: Section)
    requires j < |sections|
    ensures sections[j := s][j] == s && sections[j := s][j := t] == sections[j := t]
  {
  }

  lemma {:induction false} OldEntryLoaded(c: Config, j: nat, more: seq<Entry>, n: nat, rest: string)
    requires j < |c.sections| && n < |more| && GoodEntries(more)
    ensures LeadsTo(InOldSection(c, j, more, n), Dumped(more, n, rest),
                    InOldSection(c, j, more, n + 1), Dumped(more, n + 1, rest))
  {
    EntryLoaded(InOldSection(c, j, more, n), more, n, rest);
    OldSectionOneMore(c, j, more, n);
  }

  /** From each state and text to the next. */
  ghost predicate Steps(states: seq<Loading>, texts: seq<string>) {
    && |states| == |texts|
    && forall k :: 0 < k < |states| ==> LeadsTo(states[k - 1], texts[k - 1], states[k], texts[k])
  }

  lemma {:induction false} LeadsAlong(states: seq<Loading>, texts: seq<string>, n: nat)
    requires Steps(states, texts) && n < |states|
    ensures LeadsTo(states[0], texts[0], states[n], texts[n])
  {
    if n > 0 {
      LeadsAlong(states, texts, n - 1);
      LeadsOn(states[0], texts[0], states[n - 1], texts[n - 1], states[n], texts[n]);
    }
  }

  lemma StepsOneMore(states: seq<Loading>, texts: seq<string>, st: Loading, text: string)
    requires Steps(states, texts) && states != []
    requires LeadsTo(states[|states| - 1], texts[|texts| - 1], st, text)
    ensures Steps(states + [st], texts + [text])
  {
  }

  lemma {:induction false} OldSectionLoaded(c: Config, j: nat, more: seq<Entry>, rest: string)
    requires j < |c.sections| && GoodEntries(more)
    ensures LeadsTo(InOldSection(c, j, more, 0), Dumped(more, 0, rest), InOldSection(c, j, more, |more|), rest)
  {
    var states, texts := OldSteps(c, j, more, |more|, rest);
    LeadsAlong(states, texts, |more|);
  }

  lemma {:induction false} OldSteps(c: Config, j: nat, more: seq<Entry>, n: nat, rest: string)
    returns (states: seq<Loading>, texts: seq<string>)
    requires j < |c.sections| && n <= |more| && GoodEntries(more)
    ensures Steps(states, texts) && |states| == n + 1
    ensures states[0] == InOldSection(c, j, more, 0) && texts[0] == Dumped(more, 0, rest)
    ensures states[n] == InOldSection(c, j, more, n) && texts[n] == Dumped(more, n, rest)
  {
    if n == 0 {
      return [InOldSection(c, j, more, 0)], [Dumped(more, 0, rest)];
    }
    states, texts := OldSteps(c, j, more, n - 1, rest);
    var st, text := InOldSection(c, j, more, n), Dumped(more, n, rest);
    OldStep(c, j, more, n - 1, rest, states[n - 1], texts[n - 1], st, text);
    StepsOneMore(states, texts, st, text);
    states, texts := states + [st], texts + [text];
  }

  lemma {:induction false} OldStep(c: Config, j: nat, more: seq<Entry>, n: nat, rest: string,
                                   st: Loading, text: string, st': Loading, text': string)
    requires j < |c.sections| && n < |more| && GoodEntries(more)
    requires st == InOldSection(c, j, more, n) && st' == InOldSection(c, j, more, n + 1)
    requires text == Dumped(more, n, rest) && text' == Dumped(more, n + 1, rest)
    ensures LeadsTo(st, text, st', text')
  {
    OldEntryLoaded(c, j, more, n, rest);
  }

  /** The head of a section, its entries, and the rest of the file. */
  function Part(name: string, entries: seq<Entry>, rest: string): string {
    "[" + name + "]" + "\n" + Dumped(entries, 0, rest)
  }

  /** The head of a section that is there already, ignoring case: its entries are set one by one in the first section of
      that name, and nothing else changes. */
  lemma RepeatedHeadLoaded(st: Loading, name: string, j: nat, more: seq<Entry>, rest: string)
    requires Sound(st) && GoodSectionName(name) && GoodEntries(more) && FirstSectionAt(st.config, j, name)
    ensures LeadsTo(st, Part(name, more, rest),
                    InOldSection(st.config, j, more, |more|), rest)
  {
    var body, c := Dumped(more, 0, rest), st.config;
    FindAt(c, name);
    HeadLineLoaded(st, name, body);
    assert WithEntries(c, j, c.sections[j].entries) == c;
    OldSectionLoaded(c, j, more, rest);
    LeadsOn(st, Part(name, more, rest), EnterSection(st, name), body, InOldSection(c, j, more, |more|), rest);
  }

  /** A head that is not there yet: a section with these entries is added at the end. */
  lemma NewHeadLoaded(st: Loading, s: Section, rest: string)
    requires Sound(st) && GoodSection(s) && NoSection(st.config, s.name)
    ensures LeadsTo(st, Part(s.name, s.entries, rest),
                    Loading(st.config.(sections := st.config.sections + [s]), Some(|st.config.sections|), true), rest)
  {
    var body, c := Dumped(s.entries, 0, rest), st.config;
    FindAt(c, s.name);
    HeadLineLoaded(st, s.name, body);
    assert s.entries[..0] == [] && s.entries[..|s.entries|] == s.entries;
    SectionLoaded(c, s, 0, rest);
    LeadsOn(st, Part(s.name, s.entries, rest), EnterSection(st, s.name), body, InSection(c, s, |s.entries|), rest);
  }

  /** A short name and value are a good entry. */
  lemma PlainEntry(e: Entry)
    requires e.name != "" && e.value != "" && IsTrimmed(e.name) && IsTrimmed(e.value) && e.name[0] != '['
    requires forall k :: 0 <= k < |e.name| ==> e.name[k] !in {'=', '\n', '\0'}
    requires forall k :: 0 <= k < |e.value| ==> e.value[k] !in {'\n', '\0'}
    ensures GoodEntry(e)
  {
    assert EntryLine(e)[0] == e.name[0];
  }

  lemma {:induction false} DumpedOne(e: Entry, rest: string)
    ensures Dumped([e], 0, rest) == EntryLine(e) + "\n" + rest
  {
    assert Dumped([e], 1, rest) == rest;
  }

  lemma {:induction false} LineOfEntry(name: string, value: string, line: string)
    requires value != "" && line == name + " = " + value
    ensures EntryLine(Entry(name, value)) == line
  {
  }

  /** A file with a section whose head comes again, in any case of letters: there is one section, with the entries of
      the second part set one by one after those of the first. */
  lemma {:induction false} TwoHeadsLoaded(s: Section, name: string, more: seq<Entry>)
    requires GoodSection(s) && GoodSectionName(name) && SameName(s.name, name) && GoodEntries(more)
    ensures LoadedFrom(Part(s.name, s.entries, Part(name, more, "")))
            == Config([], [Section(s.name, AllSet(s.entries, more, |more|))])
  {
    var tail, c := Part(name, more, ""), Config([], [s]);
    var st := Loading(c, Some(0), true);
    NewHeadLoaded(Empty, s, tail);
    assert Empty.config.sections + [s] == [s];
    RepeatedHeadLoaded(st, name, 0, more, "");
    HeadTwiceEnds(Part(s.name, s.entries, tail), st, tail, InOldSection(c, 0, more, |more|));
    assert [s][0 := s.(entries := AllSet(s.entries, more, |more|))] == [s.(entries := AllSet(s.entries, more, |more|))];
  }

  /** For example. */
  lemma HeadTwice()
    ensures LoadedFrom("[s]\na = 1\n[S]\na = 2\n") == Config([], [Section("s", [Entry("a", "2")])])
  {
    var e, e' := Entry("a", "1"), Entry("a", "2");
    PlainEntry(e);
    PlainEntry(e');
    assert Upper("S") == Upper("s");
    TwoHeadsLoaded(Section("s", [e]), "S", [e']);
    HeadTwiceText(e, e');
    SetAgain(e, e');
  }

  lemma HeadTwiceEnds(text: string, st: Loading, tail: string, end: Loading)
    requires LeadsTo(Empty, text, st, tail) && LeadsTo(st, tail, end, "")
    ensures LoadedFrom(text) == end.config
  {
    LeadsOn(Empty, text, st, tail, end, "");
    LeadsHome(Empty, text, end);
  }

  lemma {:induction false} PartOfOne(name: string, e: Entry, rest: string, head: string)
    requires head == "[" + name + "]" + "\n"
    ensures Part(name, [e], rest) == head + EntryLine(e) + "\n" + rest
  {
    DumpedOne(e, rest);
    var line, end := EntryLine(e), "\n";
    assert head + (line + end + rest) == head + line + end + rest;
  }

  lemma {:induction false} HeadTwiceText(e: Entry, e': Entry)
    requires e == Entry("a", "1") && e' == Entry("a", "2")
    ensures Part("s", [e], Part("S", [e'], "")) == "[s]\na = 1\n[S]\na = 2\n"
  {
    LineOfEntry("a", "1", "a = 1");
    LineOfEntry("a", "2", "a = 2");
    PartOfOne("S", e', "", "[S]\n");
    PartOfOne("s", e, Part("S", [e'], ""), "[s]\n");
    assert Part("S", [e'], "") == "[S]\na = 2\n";
  }

  lemma {:induction false} SetAgain(e: Entry, e': Entry)
    requires IsTrimmed(e.name) && SameName(e.name, e'.name) && e'.name == e.name && e'.value != ""
    ensures AllSet([e], [e'], 1) == [e']
  {
    TrimmedStays(e.name);
    EntryFromIsFirst([e], 0, e.name, 0);
    assert AllSet([e], [e'], 0) == [e];
  }

  /** The text of a file, and that it comes back. */
  lemma ExampleFile()
    ensures var c := Config([Entry("g", "0")], [Section("a", [Entry("x", "1")])]);
            Saved(c) == "g = 0\n\n[a]\nx = 1\n" && LoadedFrom(Saved(c)) == c
  {
    var c := Config([Entry("g", "0")], [Section("a", [Entry("x", "1")])]);
    ExampleText(c.globals[0], c.sections[0]);
    PlainEntry(c.globals[0]);
    PlainEntry(c.sections[0].entries[0]);
    GoodComesBack(c);
  }

  lemma {:induction false} ExampleText(e: Entry, s: Section)
    requires e == Entry("g", "0") && s == Section("a", [Entry("x", "1")])
    ensures Saved(Config([e], [s])) == "g = 0\n\n[a]\nx = 1\n"
  {
    LineOfEntry("g", "0", "g = 0");
    ExampleSection(s);
    DumpedOne(e, DumpedSections([s], 0));
  }

  lemma {:induction false} ExampleSection(s: Section)
    requires s == Section("a", [Entry("x", "1")])
    ensures DumpedSections([s], 0) == "\n[a]\nx = 1\n"
  {
    LineOfEntry("x", "1", "x = 1");
    DumpedOne(Entry("x", "1"), "");
    assert DumpedSections([s], 1) == "";
  }

  /** A line falls into its name and its value at the first '=', without the white space around them. */
  lemma PartsOfLine(name: string, value: string)
    requires forall k :: 0 <= k < |name| ==> name[k] != '='
    ensures NameIn(name + "=" + value) == Trim(name) && ValueIn(name + "=" + value) == Trim(value)
  {
    var line := name + "=" + value;
    SpanIs(line, |name|, c => c == '=');
    assert line[..|name|] == name && line[|name| + 1..] == value;
  }

  // ----- whatever is loaded can be saved -----

  lemma {:induction false} TrimEndIsPrefix(s: string)
    ensures var t := TrimEnd(s); t <= s && (t != "" ==> !IsSpace(t[|t| - 1]))
    ensures forall k :: |TrimEnd(s)| <= k < |s| ==> IsSpace(s[k])
  {
    if s != "" && IsSpace(s[|s| - 1]) {
      TrimEndIsPrefix(s[..|s| - 1]);
      forall k | |TrimEnd(s)| <= k < |s|
        ensures IsSpace(s[k])
      {
        assert k < |s| - 1 ==> s[k] == s[..|s| - 1][k];
      }
    }
  }

  /** Trimming leaves a trimmed piece of the string, with white space before and after it. */
  lemma TrimIsPiece(s: string) returns (lo: nat)
    ensures lo + |Trim(s)| <= |s| && Trim(s) == s[lo..lo + |Trim(s)|] && IsTrimmed(Trim(s))
    ensures forall k :: 0 <= k < lo || lo + |Trim(s)| <= k < |s| ==> IsSpace(s[k]) || Trim(s) == ""
    ensures forall k :: 0 <= k < lo ==> IsSpace(s[k])
  {
    TrimEndIsPrefix(s);
    var t := TrimEnd(s);
    SpanStops(t, c => !IsSpace(c));
    lo := Span(t, c => !IsSpace(c));
    assert forall k :: 0 <= k < |t| ==> t[k] == s[k];
  }

  lemma CleanedIsClean(raw: string)
    requires forall k :: 0 <= k < |raw| ==> raw[k] != '\n'
    ensures Clean(Cleaned(raw))
  {
    SpanStops(raw, c => c == '\0');
    var lo := TrimIsPiece(raw[..Span(raw, c => c == '\0')]);
  }

  lemma PieceIsClean(line: string, i: nat, j: nat, piece: string) returns (at: nat)
    requires Clean(line) && i <= j <= |line| && piece == line[i..j]
    ensures Clean(Trim(piece)) && i <= at && at + |Trim(piece)| <= j
    ensures forall k :: 0 <= k < |Trim(piece)| ==> Trim(piece)[k] == line[at + k]
  {
    var lo := TrimIsPiece(piece);
    at := i + lo;
    forall k | 0 <= k < |Trim(piece)|
      ensures Trim(piece)[k] == line[at + k]
    {
      assert Trim(piece)[k] == piece[lo + k];
    }
  }

  lemma HeadNameIsGood(line: string)
    requires Clean(line) && IsHead(line)
    ensures 1 < |line| && (Trim(line[1..|line| - 1]) != "" ==> GoodSectionName(Trim(line[1..|line| - 1])))
  {
    SpanStops(line, c => c == ']');
    var at := PieceIsClean(line, 1, |line| - 1, line[1..|line| - 1]);
  }

  /** The name is at the front of the line, with only white space between it and the '='. */
  lemma NameInLine(line: string)
    requires Clean(line) && NameIn(line) != ""
    ensures var q, name := Span(line, c => c == '='), NameIn(line);
            |name| <= q && line[..|name|] == name && forall k :: |name| <= k < q ==> IsSpace(line[k])
  {
    var q := Span(line, c => c == '=');
    var lo := TrimIsPiece(line[..q]);
    assert line[..q][0] == line[0];
    assert lo == 0;
    forall k | |NameIn(line)| <= k < q
      ensures IsSpace(line[k])
    {
      assert line[k] == line[..q][k];
    }
  }

  /** The value is at the end of the line, with only white space between the '=' and it. */
  lemma ValueInLine(line: string) returns (at: nat)
    requires Clean(line) && ValueIn(line) != ""
    ensures var q, value := Span(line, c => c == '='), ValueIn(line);
            && q < at && at + |value| == |line| && line[at..] == value
            && forall k :: q < k < at ==> IsSpace(line[k])
  {
    at := TrimOfRest(line, Span(line, c => c == '=') + 1, ValueIn(line));
  }

  /** Where there is no white space at the end of a line, trimming a rest of it leaves its end. */
  lemma TrimOfRest(line: string, i: nat, value: string) returns (at: nat)
    requires IsTrimmed(line) && i <= |line| && value == Trim(line[i..]) && value != ""
    ensures i <= at && at + |value| == |line| && line[at..] == value && forall k :: i <= k < at ==> IsSpace(line[k])
  {
    var rest := line[i..];
    assert rest[|rest| - 1] == line[|line| - 1];
    assert TrimEnd(rest) == rest;
    SpanStops(rest, c => !IsSpace(c));
    var lo := Span(rest, c => !IsSpace(c));
    at := i + lo;
    RestOfRest(line, i, rest, lo, at);
  }

  lemma RestOfRest(line: string, i: nat, rest: string, lo: nat, at: nat)
    requires i <= |line| && rest == line[i..] && lo <= |rest| && at == i + lo
    requires forall k :: 0 <= k < lo ==> IsSpace(rest[k])
    ensures rest[lo..] == line[at..] && forall k :: i <= k < at ==> IsSpace(line[k])
  {
    forall k | i <= k < at
      ensures IsSpace(line[k])
    {
      assert line[k] == rest[k - i];
    }
  }

  /** A line that is no head does not turn into one when its parts are printed. */
  lemma NotHeadAgain(line: string)
    requires Clean(line) && !IsHead(line) && NameIn(line) != ""
    ensures !IsHead(EntryLine(Entry(NameIn(line), ValueIn(line))))
  {
    var name, value := NameIn(line), ValueIn(line);
    var printed := EntryLine(Entry(name, value));
    assert value == "" ==> printed[|printed| - 1] == '=';
    SpanStops(printed, c => c == ']');
    if IsHead(printed) {
      NameInLine(line);
      var at := ValueInLine(line);
      SpanStops(line, c => c == '=');
      forall k | 0 <= k < |line| - 1
        ensures line[k] != ']'
      {
        if k < |name| {
          assert line[k] == line[..|name|][k] == printed[k];
        } else if k >= at {
          assert line[k] == line[at..][k - at] == printed[|name| + 3 + (k - at)];
        }
      }
      assert line[|line| - 1] == value[|value| - 1] == printed[|printed| - 1];
      assert line[0] == line[..|name|][0] == printed[0];
      SpanIs(line, |line| - 1, c => c == ']');
    }
  }

  lemma NameIsGood(line: string)
    requires Clean(line)
    ensures Clean(NameIn(line)) && forall k :: 0 <= k < |NameIn(line)| ==> NameIn(line)[k] != '='
  {
    var q := Span(line, c => c == '=');
    SpanStops(line, c => c == '=');
    FrontAndRest(line, q);
    var at := PieceIsClean(line, 0, q, line[..q]);
  }

  lemma ValueIsClean(line: string)
    requires Clean(line)
    ensures Clean(ValueIn(line))
  {
    var q := Span(line, c => c == '=');
    if q < |line| {
      FrontAndRest(line, q + 1);
      var _ := PieceIsClean(line, q + 1, |line|, line[q + 1..]);
    }
  }

  lemma LineIsGoodEntry(line: string)
    requires Clean(line) && !IsHead(line) && NameIn(line) != ""
    ensures GoodEntry(Entry(NameIn(line), ValueIn(line)))
  {
    NameIsGood(line);
    ValueIsClean(line);
    NotHeadAgain(line);
  }

  /** Whether a line is a head does not depend on the case of letters. */
  lemma SameHead(name: string, other: string, value: string)
    requires SameName(name, other) && name != "" && IsHead(EntryLine(Entry(name, value)))
    ensures IsHead(EntryLine(Entry(other, value)))
  {
    var line, line' := EntryLine(Entry(name, value)), EntryLine(Entry(other, value));
    assert |Upper(name)| == |Upper(other)|;
    forall k | 0 <= k < |name|
      ensures (name[k] == ']' <==> other[k] == ']') && (name[k] == '[' <==> other[k] == '[')
    {
      assert Upper(name)[k] == Upper(other)[k];
    }
    SpanStops(line, c => c == ']');
    forall k | 0 <= k < |line|
      ensures line'[k] == ']' <==> line[k] == ']'
    {
      if k >= |name| {
        assert line[k] == line'[k];
      }
    }
    SpanIs(line', |line'| - 1, c => c == ']');
  }

  /** Every entry after set was there before, or is the one that was set, or differs from it in the case of its name. */
  predicate FromSet(now: Entry, entries: seq<Entry>, e: Entry) {
    || now in entries
    || (e.value != "" && now == e)
    || (e.value != "" && exists j :: 0 <= j < |entries| && now == entries[j].(value := e.value)
                                     && SameName(entries[j].name, e.name))
  }

  lemma EntriesAfterSet(entries: seq<Entry>, e: Entry)
    requires IsTrimmed(e.name)
    ensures var after := SetEntry(entries, e.name, e.value);
            forall k :: 0 <= k < |after| ==> FromSet(after[k], entries, e)
  {
    TrimmedStays(e.name);
    EntryFromIsFirst(entries, 0, e.name, EntryFrom(entries, 0, e.name));
    var i, after := EntryFrom(entries, 0, e.name), SetEntry(entries, e.name, e.value);
    forall k | 0 <= k < |after|
      ensures FromSet(after[k], entries, e)
    {
      if e.value == "" {
        assert after[k] in entries;
      } else if k == i < |entries| {
        assert after[k] == entries[i].(value := e.value);
      } else {
        assert after[k] == if k < |entries| then entries[k] else e;
      }
    }
  }

  lemma RevaluedIsGood(was: Entry, e: Entry)
    requires GoodEntry(was) && GoodEntry(e) && SameName(was.name, e.name)
    ensures GoodEntry(was.(value := e.value))
  {
    assert Entry(e.name, e.value) == e;
    if IsHead(EntryLine(was.(value := e.value))) {
      SameHead(was.name, e.name, e.value);
    }
  }

  lemma SetKeepsEntriesGood(entries: seq<Entry>, e: Entry)
    requires GoodEntries(entries) && GoodEntry(e)
    ensures GoodEntries(SetEntry(entries, e.name, e.value))
  {
    var after := SetEntry(entries, e.name, e.value);
    EntriesAfterSet(entries, e);
    forall k | 0 <= k < |after|
      ensures GoodEntry(after[k])
    {
      if after[k] !in entries && after[k] != e {
        var j :| 0 <= j < |entries| && after[k] == entries[j].(value := e.value) && SameName(entries[j].name, e.name);
        RevaluedIsGood(entries[j], e);
      }
    }
  }

  lemma SetKeepsGood(globals: seq<Entry>, e: Entry)
    requires GoodGlobals(globals) && GoodEntry(e)
    ensures GoodGlobals(SetEntry(globals, e.name, e.value))
  {
    SetKeepsDistinct(globals, e.name, e.value);
    SetKeepsEntriesGood(globals, e);
    EntriesAfterSet(globals, e);
  }

  lemma PutKeepsGood(s: Section, quick: bool, e: Entry)
    requires GoodSection(s) && GoodEntry(e)
    ensures GoodSection(s.(entries := PutEntry(s.entries, quick, e.name, e.value)))
  {
    if quick {
      TrimmedStays(e.name);
    } else {
      SetKeepsEntriesGood(s.entries, e);
    }
  }

  lemma EnterKeepsGood(st: Loading, name: string)
    requires Sound(st) && Good(st.config) && (name != "" ==> GoodSectionName(name))
    ensures Good(EnterSection(st, name).config)
  {
    SectionFromIsFirst(st.config.sections, 0, name, SectionFrom(st.config.sections, 0, name));
  }

  lemma AddKeepsGood(st: Loading, e: Entry)
    requires Sound(st) && Good(st.config) && GoodEntry(e)
    ensures Good(AddValue(st, e.name, e.value).config)
  {
    match st.at
    case None => SetKeepsGood(st.config.globals, e);
    case Some(i) => PutKeepsGood(st.config.sections[i], st.quick, e);
  }

  lemma LineKeepsGood(st: Loading, raw: string)
    requires Sound(st) && Good(st.config) && forall k :: 0 <= k < |raw| ==> raw[k] != '\n'
    ensures Good(TakeLine(st, raw).config)
  {
    var line := Cleaned(raw);
    CleanedIsClean(raw);
    if IsHead(line) {
      HeadNameIsGood(line);
      EnterKeepsGood(st, Trim(line[1..|line| - 1]));
    } else if NameIn(line) != "" {
      LineIsGoodEntry(line);
      AddKeepsGood(st, Entry(NameIn(line), ValueIn(line)));
    }
  }

  lemma {:induction false} LoadingKeepsGood(st: Loading, text: string)
    requires Sound(st) && Good(st.config)
    ensures Good(Loaded(st, text).config)
    decreases |text|
  {
    if text != "" {
      var n := Span(text, c => c == '\n');
      SpanStops(text, c => c == '\n');
      LineKeepsGood(st, text[..n]);
      LoadingKeepsGood(TakeLine(st, text[..n]), if n < |text| then text[n + 1..] else "");
    }
  }

  /** A configuration comes back from its file exactly when it is good. */
  lemma ComesBackIfAndOnlyIfGood(c: Config)
    ensures LoadedFrom(Saved(c)) == c <==> Good(c)
  {
    LoadingKeepsGood(Empty, Saved(c));
    if Good(c) {
      GoodComesBack(c);
    }
  }

  /** Whatever a file says, saving what was loaded from it and loading that changes nothing. */
  lemma LoadedComesBack(text: string)
    ensures LoadedFrom(Saved(LoadedFrom(text))) == LoadedFrom(text)
  {
    LoadingKeepsGood(Empty, text);
    GoodComesBack(LoadedFrom(text));
  }

  // ----- a name that is repeated -----

  lemma PlainEntryIsGood(value: char)
    requires '0' <= value <= '9'
    ensures GoodEntry(Entry("a", [value]))
  {
    var line := EntryLine(Entry("a", [value]));
    assert line[0] == 'a';
  }

  /** A file may repeat a name in a new section; setting that name to nothing then brings the second value to light. */
  lemma RepeatedNameComesToLight()
    ensures var c := Config([], [Section("s", [Entry("a", "1"), Entry("a", "2")])]);
            && LoadedFrom(Saved(c)) == c
            && OldValue(c.sections[0], "a") == "1"
            && var r := ConfSet(c, "s", "a", ""); r.1 && OldValue(r.0.sections[0], "a") == "2"
  {
    var es := [Entry("a", "1"), Entry("a", "2")];
    var c := Config([], [Section("s", es)]);
    PlainEntryIsGood('1');
    PlainEntryIsGood('2');
    GoodComesBack(c);
    SecondComesToLight(es, "a");
    SectionFromIsFirst(c.sections, 0, "s", 0);
  }

  lemma {:induction false} SecondComesToLight(es: seq<Entry>, name: string)
    requires |es| == 2 && IsTrimmed(name) && SameName(es[0].name, name) && SameName(es[1].name, name)
    requires es[0].value != ""
    ensures Lookup(es, name) == Some(es[0].value) && Lookup(SetEntry(es, name, ""), name) == Some(es[1].value)
  {
    TrimmedStays(name);
    EntryFromIsFirst(es, 0, name, 0);
    EntryFromIsFirst(es, 1, name, 1);
    LookupAfterSet(es, name, "", name);
  }
}
