/** What a WvConf holds, and the text of its file (wvconf.cc, cfgsection.cc). */
module ConfModel {
  import opened Optional
  import opened Text

  datatype Entry = Entry(name: string, value: string)

  datatype Section = Section(name: string, entries: seq<Entry>)

  datatype Config = Config(globals: seq<Entry>, sections: seq<Section>)

  // ----- looking up names -----

  /** The place of the first item with this name, ignoring case, from a place on. */
  function NamedFrom<T>(items: seq<T>, nameOf: T -> string, i: nat, name: string): (r: nat)
    requires i <= |items|
    ensures i <= r <= |items|
    decreases |items| - i
  {
    if i == |items| || SameName(nameOf(items[i]), name) then i else NamedFrom(items, nameOf, i + 1, name)
  }

  /** The first item with the name is the only place with nothing of that name before it, and that name in it. */
  lemma {:induction false} NamedFromIsFirst<T>(items: seq<T>, nameOf: T -> string, i: nat, name: string, r: nat)
    requires i <= r <= |items|
    ensures NamedFrom(items, nameOf, i, name) == r
            <==> (forall k :: i <= k < r ==> !SameName(nameOf(items[k]), name))
                 && (r < |items| ==> SameName(nameOf(items[r]), name))
    decreases |items| - i
  {
    if i < r && !SameName(nameOf(items[i]), name) {
      NamedFromIsFirst(items, nameOf, i + 1, name, r);
    }
  }

  // ----- the entries of a section -----

  function NameOfEntry(e: Entry): string {
    e.name
  }

  function EntryFrom(entries: seq<Entry>, i: nat, name: string): (r: nat)
    requires i <= |entries|
    ensures i <= r <= |entries|
  {
    NamedFrom(entries, NameOfEntry, i, name)
  }

  lemma EntryFromIsFirst(entries: seq<Entry>, i: nat, name: string, r: nat)
    requires i <= r <= |entries|
    ensures EntryFrom(entries, i, name) == r
            <==> (forall k :: i <= k < r ==> !SameName(entries[k].name, name))
                 && (r < |entries| ==> SameName(entries[r].name, name))
  {
    NamedFromIsFirst(entries, NameOfEntry, i, name, r);
  }

  function LookupFrom(entries: seq<Entry>, i: nat, name: string): Option<string>
    requires i <= |entries|
  {
    var k := EntryFrom(entries, i, name);
    if k < |entries| then Some(entries[k].value) else None
  }

  function Lookup(entries: seq<Entry>, name: string): Option<string> {
    LookupFrom(entries, 0, name)
  }

  /** What the entry behind the first one with this name says, if there is one with the same name. */
  function LookupNext(entries: seq<Entry>, name: string): Option<string> {
    var i := EntryFrom(entries, 0, name);
    if i < |entries| then LookupFrom(entries, i + 1, name) else None
  }

  function Without(entries: seq<Entry>, i: nat): seq<Entry>
    requires i < |entries|
  {
    entries[..i] + entries[i + 1..]
  }

  /** WvConfigSection::set: an empty value takes the entry out. */
  function SetEntry(entries: seq<Entry>, name: string, value: string): seq<Entry> {
    var i := EntryFrom(entries, 0, Trim(name));
    if value == "" then (if i < |entries| then Without(entries, i) else entries)
    else if i < |entries| then entries[i := entries[i].(value := value)]
    else entries + [Entry(Trim(name), value)]
  }

  /** No two entries have the same name, ignoring case. */
  ghost predicate DistinctEntries(entries: seq<Entry>) {
    forall i, j :: 0 <= i < j < |entries| ==> !SameName(entries[i].name, entries[j].name)
  }

  /** At most one entry has this name, ignoring case. */
  ghost predicate AtMostOnce(entries: seq<Entry>, name: string) {
    forall i, j :: 0 <= i < j < |entries| ==> !(SameName(entries[i].name, name) && SameName(entries[j].name, name))
  }

  lemma SetKeepsDistinct(entries: seq<Entry>, name: string, value: string)
    requires DistinctEntries(entries)
    ensures DistinctEntries(SetEntry(entries, name, value))
  {
    EntryFromIsFirst(entries, 0, Trim(name), EntryFrom(entries, 0, Trim(name)));
  }

  /** What a section answers after set, with any entries: the value for the name, or for an empty value what a second
      entry with the name says; and what it answered before for every other name. */
  lemma LookupAfterSet(entries: seq<Entry>, name: string, value: string, other: string)
    ensures Lookup(SetEntry(entries, name, value), other)
            == if !SameName(Trim(name), other) then Lookup(entries, other)
               else if value != "" then Some(value)
               else LookupNext(entries, Trim(name))
  {
    var i := EntryFrom(entries, 0, Trim(name));
    EntryFromIsFirst(entries, 0, Trim(name), i);
    if value != "" {
      LookupAfterValue(entries, name, value, other);
    } else if i < |entries| {
      if SameName(Trim(name), other) {
        LookupFirstGone(entries, i, Trim(name), other);
      } else {
        LookupOtherGone(entries, i, other);
      }
    } else if SameName(Trim(name), other) {
      EntryFromIsFirst(entries, 0, other, i);
    }
  }

  lemma LookupAfterValue(entries: seq<Entry>, name: string, value: string, other: string)
    requires value != ""
    ensures Lookup(SetEntry(entries, name, value), other)
            == if SameName(Trim(name), other) then Some(value) else Lookup(entries, other)
  {
    var now, i, was := SetEntry(entries, name, value), EntryFrom(entries, 0, Trim(name)), EntryFrom(entries, 0, other);
    EntryFromIsFirst(entries, 0, Trim(name), i);
    EntryFromIsFirst(entries, 0, other, was);
    var place := if SameName(Trim(name), other) then i else if was < |entries| then was else |now|;
    assert forall k :: 0 <= k < |entries| ==> now[k].name == entries[k].name;
    EntryFromIsFirst(now, 0, other, place);
  }

  /** Without the first entry of a name, the next one is found. */
  lemma LookupFirstGone(entries: seq<Entry>, i: nat, name: string, other: string)
    requires i < |entries| && EntryFrom(entries, 0, name) == i && SameName(name, other)
    ensures Lookup(Without(entries, i), other) == LookupFrom(entries, i + 1, name)
  {
    var now, j := Without(entries, i), EntryFrom(entries, i + 1, name);
    EntryFromIsFirst(entries, 0, name, i);
    EntryFromIsFirst(entries, i + 1, name, j);
    assert forall k :: 0 <= k < |now| ==> now[k] == entries[if k < i then k else k + 1];
    EntryFromIsFirst(now, 0, other, j - 1);
  }

  lemma LookupOtherGone(entries: seq<Entry>, i: nat, other: string)
    requires i < |entries| && !SameName(entries[i].name, other)
    ensures Lookup(Without(entries, i), other) == Lookup(entries, other)
  {
    var now, was := Without(entries, i), EntryFrom(entries, 0, other);
    EntryFromIsFirst(entries, 0, other, was);
    assert forall k :: 0 <= k < |now| ==> now[k] == entries[if k < i then k else k + 1];
    EntryFromIsFirst(now, 0, other, if was < i then was else was - 1);
  }

  /** Setting an entry to nothing leaves nothing of that name exactly if at most one entry had it. */
  lemma ClearedIfAndOnlyIfOnce(entries: seq<Entry>, name: string)
    ensures Lookup(SetEntry(entries, name, ""), Trim(name)).None? <==> AtMostOnce(entries, Trim(name))
  {
    var i := EntryFrom(entries, 0, Trim(name));
    LookupAfterSet(entries, name, "", Trim(name));
    EntryFromIsFirst(entries, 0, Trim(name), i);
    if i < |entries| {
      var j := EntryFrom(entries, i + 1, Trim(name));
      EntryFromIsFirst(entries, i + 1, Trim(name), j);
    }
  }

  // ----- the sections -----

  function NameOfSection(s: Section): string {
    s.name
  }

  function SectionFrom(sections: seq<Section>, i: nat, name: string): (r: nat)
    requires i <= |sections|
    ensures i <= r <= |sections|
  {
    NamedFrom(sections, NameOfSection, i, name)
  }

  lemma SectionFromIsFirst(sections: seq<Section>, i: nat, name: string, r: nat)
    requires i <= r <= |sections|
    ensures SectionFrom(sections, i, name) == r
            <==> (forall k :: i <= k < r ==> !SameName(sections[k].name, name))
                 && (r < |sections| ==> SameName(sections[r].name, name))
  {
    NamedFromIsFirst(sections, NameOfSection, i, name, r);
  }

  /** operator[] of WvConf. */
  function Find(c: Config, name: string): Option<nat> {
    var i := SectionFrom(c.sections, 0, name);
    if i < |c.sections| then Some(i) else None
  }

  ghost predicate DistinctSections(sections: seq<Section>) {
    forall i, j :: 0 <= i < j < |sections| ==> !SameName(sections[i].name, sections[j].name)
  }

  // ----- the file -----

  /** The line that dump prints for an entry. */
  function EntryLine(e: Entry): string {
    if e.value != "" then e.name + " = " + e.value else e.name + " ="
  }

  /** What dump prints for the entries from a place on, followed by the rest of the file. */
  function Dumped(entries: seq<Entry>, i: nat, rest: string): string
    requires i <= |entries|
    decreases |entries| - i
  {
    if i == |entries| then rest else EntryLine(entries[i]) + "\n" + Dumped(entries, i + 1, rest)
  }

  function DumpedSections(sections: seq<Section>, i: nat): string
    requires i <= |sections|
    decreases |sections| - i
  {
    if i == |sections| then ""
    else "\n" + ("[" + sections[i].name + "]" + "\n" + Dumped(sections[i].entries, 0, DumpedSections(sections, i + 1)))
  }

  /** What save writes. */
  function Saved(c: Config): string {
    Dumped(c.globals, 0, DumpedSections(c.sections, 0))
  }

  /** A trimmed line that parse_section takes for the head of a section: its first ']' is its last character. */
  predicate IsHead(line: string) {
    line != "" && line[0] == '[' && Span(line, c => c == ']') == |line| - 1
  }

  /** load_file between two lines: the section it is in, if not the global one, and whether it looks for names. */
  datatype Loading = Loading(config: Config, at: Option<nat>, quick: bool)

  ghost predicate Sound(st: Loading) {
    && (st.at.Some? ==> st.at.value < |st.config.sections|)
    && (st.quick ==> st.at.Some?)
  }

  function EnterSection(st: Loading, name: string): Loading {
    if name == "" then Loading(st.config, None, false)
    else
      var s := Find(st.config, name);
      if s.Some? then Loading(st.config, s, false)
      else Loading(st.config.(sections := st.config.sections + [Section(name, [])]), Some(|st.config.sections|), true)
  }

  function PutEntry(entries: seq<Entry>, quick: bool, name: string, value: string): seq<Entry> {
    if quick then entries + [Entry(Trim(name), value)] else SetEntry(entries, name, value)
  }

  function AddValue(st: Loading, name: string, value: string): Loading
    requires Sound(st)
  {
    if name == "" then st
    else
      match st.at
      case None => st.(config := st.config.(globals := PutEntry(st.config.globals, st.quick, name, value)))
      case Some(i) =>
        var s := st.config.sections[i];
        st.(config := st.config.(sections :=
          st.config.sections[i := s.(entries := PutEntry(s.entries, st.quick, name, value))]))
  }

  /** parse_value: the name before the first '=', and the value after it. */
  function NameIn(line: string): string {
    Trim(line[..Span(line, c => c == '=')])
  }

  function ValueIn(line: string): string {
    var q := Span(line, c => c == '=');
    if q < |line| then Trim(line[q + 1..]) else ""
  }

  function TakeLine(st: Loading, raw: string): (r: Loading)
    requires Sound(st)
    ensures Sound(r)
  {
    var line := Cleaned(raw);
    if IsHead(line) then EnterSection(st, Trim(line[1..|line| - 1]))
    else AddValue(st, NameIn(line), ValueIn(line))
  }

  /** Loading the lines of a file; the last one may lack its line feed. */
  function Loaded(st: Loading, text: string): (r: Loading)
    requires Sound(st)
    ensures Sound(r)
    decreases |text|
  {
    if text == "" then st
    else
      var n := Span(text, c => c == '\n');
      Loaded(TakeLine(st, text[..n]), if n < |text| then text[n + 1..] else "")
  }

  /** Loading this text from here comes to this end. */
  ghost predicate Ends(st: Loading, text: string, end: Loading) {
    Sound(st) && Loaded(st, text) == end
  }

  const Empty := Loading(Config([], []), None, false)

  function LoadedFrom(text: string): Config {
    Loaded(Empty, text).config
  }
}
