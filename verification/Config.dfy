/** The configuration object (common/config/config.go, section.go, option.go, read.go, write.go). */
module Config {
  import opened Basics
  import opened ConfigText
  import opened ConfigLine
  import opened ConfigListing
  import opened ConfigStore
  import opened ConfigFormat
  import ConfigExact
  import ConfigVars
  import ConfigReading
  import opened ConfigStrings

  lemma ViewIsProper(st: Store)
    requires Valid(st)
    ensures Proper(View(st))
  {
    var order := Ordered(st.idSection, st.lastIdSection);
    OrderedMembers(st.idSection, st.lastIdSection);
    FirstKey(st.idSection, st.lastIdSection, DEFAULT_SECTION);
    forall s | s in st.data
      ensures UniqueOptions(View(st).options[s])
    {
      EntriesFind(st.data[s], LastId(st.lastIdOption, s), "");
    }
  }

  lemma {:induction false} FirstKey(m: map<string, nat>, n: nat, k: string)
    requires Injective(m) && k in m && m[k] == 0 && n > 0
    ensures Ordered(m, n) != [] && Ordered(m, n)[0] == k
  {
    if n == 1 {
      KeysAtKnown(m, k);
      assert Ordered(m, 0) == [];
    } else {
      FirstKey(m, n - 1, k);
    }
  }

  lemma OrderedStep(m: map<string, nat>, i: nat)
    ensures Ordered(m, 0) == [] && Ordered(m, i + 1) == Ordered(m, i) + KeysAt(m, i)
  {
  }

  lemma OrderedFits(m: map<string, nat>, n: nat)
    requires Injective(m)
    ensures |Ordered(m, n)| <= |m|
    ensures Below(m, n) ==> |Ordered(m, n)| == |m|
  {
    OrderedMembers(m, n);
    DistinctFits(Ordered(m, n), m.Keys);
  }

  lemma SectionsCounted(st: Store)
    requires Valid(st)
    ensures Injective(st.idSection) && Below(st.idSection, st.lastIdSection)
    ensures View(st).order == Ordered(st.idSection, st.lastIdSection)
    ensures |View(st).order| == |st.idSection|
  {
    OrderedFits(st.idSection, st.lastIdSection);
  }

  /** What is left once every option has been printed. */
  function Emptied(l: Listing): Listing {
    l.(options := map s | s in l.options :: [])
  }

  // ---------------------------------------------------------------- raw values

  lemma RawOf(st: Store, section: string, option: string)
    requires Valid(st)
    ensures DEFAULT_SECTION in st.data
    ensures Raw(View(st), section, option) ==
      if section in st.data && option in st.data[section] then Some(st.data[section][option].v)
      else if option in st.data[DEFAULT_SECTION] then Some(st.data[DEFAULT_SECTION][option].v)
      else None
  {
    if section in st.data {
      EntriesFind(st.data[section], LastId(st.lastIdOption, section), option);
    }
    EntriesFind(st.data[DEFAULT_SECTION], LastId(st.lastIdOption, DEFAULT_SECTION), option);
  }

  class Config {
    const comment: string
    const separator: string

    var lastIdSection: nat
    var idSection: map<string, nat>
    var lastIdOption: map<string, nat>
    var data: map<string, map<string, TValue>>

    ghost function State(): Store
      reads this
    {
      Store(lastIdSection, idSection, lastIdOption, data)
    }

    ghost predicate Ok()
      reads this
    {
      IsComment(comment) && IsSeparator(separator) && Valid(State())
    }

    ghost function Listed(): Listing
      reads this
      requires Ok()
    {
      View(State())
    }

    constructor (comment: string, mark: char, preSpace: bool, postSpace: bool)
      requires IsComment(comment) && IsMark(mark)
      ensures Ok() && Listed() == EMPTY
      ensures this.comment == comment && separator == Separator(mark, preSpace, postSpace)
    {
      this.comment := comment;
      separator := Separator(mark, preSpace, postSpace);
      lastIdSection := 1;
      idSection := map[DEFAULT_SECTION := 0];
      lastIdOption := map[];
      data := map[DEFAULT_SECTION := map[]];
      new;
      KeysAtKnown(idSection, DEFAULT_SECTION);
      assert Ordered(idSection, 1) == Ordered(idSection, 0) + [DEFAULT_SECTION] == [DEFAULT_SECTION];
      assert Entries(map[], 0) == [];
      assert Listed().options == EMPTY.options;
    }

    method AddSection(section: string) returns (inserted: bool)
      requires Ok()
      modifies this
      ensures Ok() && Listed() == ConfigListing.AddSection(old(Listed()), section)
      ensures inserted == (section != "" && section !in old(data))
      ensures data == if inserted then old(data)[section := map[]] else old(data)
    {
      hide Valid;
      if section == "" {
        return false;
      }
      if section in data {
        return false;
      }
      AddSectionRefines(State(), section);
      data := data[section := map[]];
      idSection := idSection[section := lastIdSection];
      lastIdSection := lastIdSection + 1;
      assert State() == WithSection(old(State()), section);
      return true;
    }

    method RemoveSection(section: string) returns (removed: bool)
      requires Ok()
      modifies this
      ensures Ok() && Listed() == ConfigListing.RemoveSection(old(Listed()), section)
      ensures removed == (section in old(data) && section != DEFAULT_SECTION)
    {
      hide Valid;
      if section !in data || section == DEFAULT_SECTION {
        return false;
      }
      RemoveSectionRefines(State(), section);
      data := data - {section};
      lastIdOption := lastIdOption - {section};
      idSection := idSection - {section};
      return true;
    }

    method AddOption(section: string, option: string, value: string) returns (inserted: bool)
      requires Ok()
      modifies this
      ensures Ok() && Listed() == ConfigListing.AddOption(old(Listed()), section, option, value)
      ensures inserted == !(Resolve(section) in old(data) && option in old(data)[Resolve(section)])
    {
      var _ := AddSection(section);
      inserted := Put(if section == "" then DEFAULT_SECTION else section, option, value);
    }

    /** The second half of AddOption, once the section is known to exist. */
    method Put(s: string, option: string, value: string) returns (inserted: bool)
      requires Ok() && s in data
      modifies this`data, this`lastIdOption
      ensures Ok() && Listed() == ConfigListing.AddOption(old(Listed()), s, option, value)
      ensures inserted == (option !in old(data)[s])
    {
      hide Valid, View;
      var n := LastId(lastIdOption, s);
      AddOptionRefines(State(), s, option, value);
      ghost var st := State();
      inserted := option !in data[s];
      data := data[s := data[s][option := TValue(n, value)]];
      lastIdOption := lastIdOption[s := n + 1];
      IsWithOption(st, s, option, value, n, lastIdOption, data);
    }

    method RemoveOption(section: string, option: string) returns (removed: bool)
      requires Ok()
      modifies this`data
      ensures Ok() && Listed() == ConfigListing.RemoveOption(old(Listed()), section, option)
      ensures removed == (section in old(data) && option in old(data)[section])
      ensures section in old(data) ==> data == old(data)[section := old(data)[section] - {option}]
    {
      if section !in data {
        return false;
      }
      RemoveOptionRefines(State(), section, option);
      removed := option in data[section];
      data := data[section := data[section] - {option}];
    }

    /** The raw value of an option, from its section or else from the default one. */
    method RawString(section: string, option: string) returns (value: Option<string>)
      requires Ok()
      ensures value == Raw(Listed(), section, option)
    {
      if DEFAULT_SECTION in data {
        EntriesFind(data[DEFAULT_SECTION], LastId(lastIdOption, DEFAULT_SECTION), option);
      }
      if section in data {
        EntriesFind(data[section], LastId(lastIdOption, section), option);
        if option in data[section] {
          return Some(data[section][option].v);
        }
      }
      if DEFAULT_SECTION in data && option in data[DEFAULT_SECTION] {
        return Some(data[DEFAULT_SECTION][option].v);
      }
      return None;
    }

    /**
     * The value of an option with its variables unfolded: first those of the file, taken from the
     * option's section or else from the default one, then those of the environment.
     */
    method String(section: string, option: string, environ: map<string, string>) returns (r: Unfolded)
      requires Ok()
      ensures r == StringOf(Listed(), section, option, environ)
    {
      hide Valid, View, ConfigVars.Unfold;
      var raw := RawString(section, option);
      if raw.None? {
        return NoOption;
      }
      var own := if section in data then data[section] else map[];
      var fallback := if DEFAULT_SECTION in data then data[DEFAULT_SECTION] else map[];
      var withVar: ConfigVars.Lookup := name =>
        if name in own then Some(own[name].v) else if name in fallback then Some(fallback[name].v) else None;
      ghost var asListed: ConfigVars.Lookup := FileVariables(Listed(), section);
      forall name
        ensures withVar(name) == asListed(name)
      {
        RawOf(State(), section, name);
      }
      var first := ConfigVars.ComputeVar(raw.value, ConfigVars.FILE_VARIABLE, withVar);
      ConfigVars.UnfoldSame(raw.value, withVar, asListed, ConfigVars.FILE_VARIABLE, ConfigVars.DEPTH);
      if !first.Value? {
        return Ended(first);
      }
      var second := ConfigVars.ComputeVar(first.text, ConfigVars.ENVIRONMENT_VARIABLE, EnvironmentVariables(environ));
      return Ended(second);
    }

    // -------------------------------------------------------------- listing sections

    /** A scan of the identifiers, in whatever order the map yields them. */
    method SectionNumbered(i: nat) returns (found: seq<string>)
      requires Injective(idSection)
      ensures found == KeysAt(idSection, i)
    {
      found := [];
      var todo := idSection.Keys;
      while todo != {}
        invariant todo <= idSection.Keys
        invariant forall k :: k in idSection.Keys - todo && idSection[k] == i ==> found == [k]
        invariant found == [] || (|found| == 1 && found[0] in idSection && idSection[found[0]] == i)
      {
        var section :| section in todo;
        if idSection[section] == i {
          found := [section];
        }
        todo := todo - {section};
      }
    }

    /** Every section once, in the order they were added, filling an array of exactly that length. */
    method Sections() returns (sections: seq<string>)
      requires Ok()
      ensures sections == Listed().order && |sections| == |idSection|
    {
      SectionsCounted(State());
      hide Valid;
      sections := FillSections();
    }

    method FillSections() returns (sections: seq<string>)
      requires Injective(idSection) && Below(idSection, lastIdSection)
      ensures sections == Ordered(idSection, lastIdSection)
    {
      hide Injective, Below, Ordered, KeysAt;
      OrderedStep(idSection, 0);
      var filled := new string[|idSection|];
      var pos := 0;
      for i := 0 to lastIdSection
        invariant pos <= filled.Length && filled[..pos] == Ordered(idSection, i)
      {
        OrderedFits(idSection, i + 1);
        OrderedStep(idSection, i);
        var found := SectionNumbered(i);
        if found != [] {
          filled[pos] := found[0];
          pos := pos + 1;
        }
      }
      OrderedFits(idSection, lastIdSection);
      return filled[..];
    }

    // -------------------------------------------------------------- printing

    /** A scan of one section's options for the one at a position, in whatever order the map yields them. */
    method OptionAt(section: string, i: nat) returns (found: seq<string>)
      requires section in data && Injective(Positions(data[section]))
      ensures found == KeysAt(Positions(data[section]), i)
    {
      found := [];
      var todo := data[section].Keys;
      while todo != {}
        invariant todo <= data[section].Keys
        invariant forall k :: k in data[section].Keys - todo ==> data[section][k].position != i
        invariant found == []
      {
        var option :| option in todo;
        if data[section][option].position == i {
          found := [option];
          assert option in Positions(data[section]);
          KeysAtKnown(Positions(data[section]), option);
          return;
        }
        todo := todo - {option};
      }
      assert KeysAt(Positions(data[section]), i) == [];
    }

    /** Print and remove the option at one position, if there is one. */
    method WriteOption(section: string, i: nat, ghost opts: map<string, TValue>) returns (line: string)
      requires Ok() && section in data
      requires Injective(Positions(opts)) && Rest(opts, data[section], i)
      modifies this`data
      ensures Ok() && section in data && data == old(data)[section := data[section]]
      ensures Rest(opts, data[section], i + 1)
      ensures PrintEntries(EntriesUpTo(opts, i + 1), separator) == PrintEntries(EntriesUpTo(opts, i), separator) + line
    {
      hide Valid, Rest, EntriesUpTo, Injective;
      RestNext(opts, data[section], i);
      EntriesUpToNext(opts, i);
      line := "";
      var found := OptionAt(section, i);
      if found != [] {
        RestKnows(opts, data[section], i);
        var option := found[0];
        PrintAppend(EntriesUpTo(opts, i), Entry(option, opts[option].v), separator);
        line := option + separator + data[section][option].v + "\n";
        var _ := RemoveOption(section, option);
      }
    }

    /** Print the options of one section in position order, removing each once it is printed. */
    method WriteOptions(section: string) returns (buf: string)
      requires Ok() && section in data
      modifies this`data
      ensures Ok() && data == old(data)[section := map[]]
      ensures buf == PrintEntries(old(Listed()).options[section], separator)
    {
      hide Valid, Numbered, Rest, EntriesUpTo, Injective;
      ghost var opts := data[section];
      buf := "";
      var last := LastId(lastIdOption, section);
      OptionsOf(State(), section);
      RestStart(opts);
      for i := 0 to last
        invariant Ok() && section in data && data == old(data)[section := data[section]]
        invariant Rest(opts, data[section], i)
        invariant buf == PrintEntries(EntriesUpTo(opts, i), separator)
      {
        var line := WriteOption(section, i, opts);
        buf := buf + line;
      }
      RestEnd(opts, data[section], last);
    }

    /** Print one section: nothing for an empty default section. */
    method WriteSection(section: string) returns (buf: string)
      requires Ok() && section in data
      modifies this`data
      ensures Ok() && data == old(data)[section := map[]]
      ensures buf == PrintSection(section, old(Listed()).options[section], separator)
    {
      hide Valid;
      EmptySection(State(), section);
      if section == DEFAULT_SECTION && data[section] == map[] {
        assert data == data[section := map[]];
        return "";
      }
      buf := "\n[" + section + "]\n";
      var options := WriteOptions(section);
      buf := buf + options;
    }

    method WriteNth(sections: seq<string>, k: nat, ghost st: Store) returns (text: string)
      requires Ok() && Valid(st) && st.lastIdOption == lastIdOption
      requires Distinct(sections) && k < |sections| && sections[k] in st.data
      requires Printed(st.data, data, sections[..k])
      modifies this`data
      ensures Ok() && Printed(st.data, data, sections[..k + 1])
      ensures sections[k] in View(st).options
      ensures text == PrintSection(sections[k], View(st).options[sections[k]], separator)
    {
      hide Valid, Printed, View, PrintSection;
      ViewKeys(st);
      PrintedNext(st.data, data, sections, k);
      SameSection(st, State(), sections[k]);
      text := WriteSection(sections[k]);
    }

    method WriteSections(ghost st: Store, ghost l: Listing) returns (body: string)
      requires Ok() && st == State() && l == View(st) && Proper(l)
      modifies this`data
      ensures Ok() && Printed(st.data, data, l.order)
      ensures body == PrintSections(l.order, l.options, separator)
    {
      hide Valid, Printed, View, PrintSection;
      ViewKeys(st);
      var sections := Sections();
      body := "";
      for k := 0 to |sections|
        invariant Ok() && Printed(st.data, data, sections[..k])
        invariant body == PrintSections(sections[..k], l.options, separator)
      {
        PrintSectionsNext(sections, k, l.options, separator);
        var text := WriteNth(sections, k, st);
        body := body + text;
      }
      assert sections[..|sections|] == sections;
    }

    /** Save: the text of the whole configuration. Printing takes every option out of the store. */
    method Write(header: string) returns (buf: string)
      requires Ok()
      modifies this`data
      ensures Ok() && Listed() == Emptied(old(Listed()))
      ensures Proper(old(Listed()))
      ensures buf == Print(old(Listed()), header, comment, separator)
    {
      hide Valid, Printed, View;
      ViewIsProper(State());
      buf := "";
      if header != "" {
        buf := comment + Mend(header, comment) + "\n";
      }
      var body := WriteSections(State(), Listed());
      buf := buf + body + "\n";
      AllPrinted(old(State()), State());
    }

    // -------------------------------------------------------------- reading

    /** One line of a file, its comment and trailing blanks already gone. */
    method ReadClean(l: string, section: string, option: string)
      returns (ok: bool, section': string, option': string)
      requires Ok()
      modifies this
      ensures Ok() && DEFAULT_SECTION in old(Listed()).options
      ensures var p := Obey(Parser(old(Listed()), section, option), Understand(l));
        ok == p.Some? && (ok ==> p.value == Parser(Listed(), section', option'))
    {
      hide Valid, View, ConfigListing.AddOption, ConfigListing.AddSection;
      ViewHasDefault(State());
      ok, section', option' := true, section, option;
      if |l| == 0 || l[0] == '#' || l[0] == ';' {
      } else if l[0] == '[' && l[|l| - 1] == ']' {
        option' := "";
        section' := TrimSpace(l[1..|l| - 1]);
        var _ := AddSection(section');
      } else if section != "" && option != "" && (l[0] == ' ' || l[0] == '\t') {
        var prev := RawString(section, option);
        var value := TrimSpace(l);
        var _ := AddOption(section, option, (if prev.Some? then prev.value else "") + "\n" + value);
      } else {
        var i := FirstMark(l);
        if 0 < i < |l| && l[0] != ' ' && l[0] != '\t' {
          option' := TrimSpace(l[..i]);
          var value := TrimSpace(l[i + 1..]);
          var _ := AddOption(section, option', value);
        } else {
          ok := false;
        }
      }
    }

    /** One line of a file. */
    method ReadLine(raw: string, section: string, option: string)
      returns (ok: bool, section': string, option': string)
      requires Ok()
      modifies this
      ensures Ok() && DEFAULT_SECTION in old(Listed()).options
      ensures var p := Feed(Parser(old(Listed()), section, option), raw);
        ok == p.Some? && (ok ==> p.value == Parser(Listed(), section', option'))
    {
      hide Valid, View, Obey, Understand;
      ViewHasDefault(State());
      if ByteLength(raw) > MAX_LINE {
        return false, section, option;
      }
      var l := StripComments(DropCR(raw));
      ok, section', option' := ReadClean(TrimRight(l), section, option);
    }

    /**
     * Load: the scanner loop. On failure the source hands out no configuration, so nothing is
     * said about what was read before the bad line.
     */
    method Read(text: string) returns (ok: bool)
      requires Ok()
      modifies this
      ensures Ok() && DEFAULT_SECTION in old(Listed()).options
      ensures var p := FeedAll(Parser(old(Listed()), "", ""), Lines(text));
        ok == p.Some? && (ok ==> p.value.listing == Listed())
      ensures !ok <==> exists k :: 0 <= k < |Lines(text)| && ConfigReading.Refused(Lines(text), k)
    {
      hide Valid, View, Feed, ConfigReading.Refused;
      ViewHasDefault(State());
      ConfigReading.ReadingFailsExactly(Listed(), text);
      ghost var goal := FeedAll(Parser(Listed(), "", ""), Lines(text));
      var section, option := "", "";
      var rest := text;
      ok := true;
      while rest != ""
        invariant Ok() && DEFAULT_SECTION in Listed().options
        invariant FeedAll(Parser(Listed(), section, option), Lines(rest)) == goal
        decreases |rest|
      {
        var k := NewlineAt(rest);
        var raw := rest[..k];
        rest := if k < |rest| then rest[k + 1..] else "";
        ok, section, option := ReadLine(raw, section, option);
        if !ok {
          return;
        }
        ViewHasDefault(State());
      }
    }

    // -------------------------------------------------------------- merging

    method MergeSection(section: string, opts: map<string, TValue>)
      requires Ok() && section != ""
      modifies this
      ensures Ok() && Overridden(old(Listed()), Listed(), section, opts)
    {
      hide Valid, View, Overridden, Taken;
      var todo := opts.Keys;
      ghost var l := Listed();
      TakenEnds(l, section, opts);
      assert opts.Keys - todo == {};
      while todo != {}
        invariant todo <= opts.Keys
        invariant Ok() && Overridden(l, Listed(), section, Taken(opts, opts.Keys - todo))
      {
        var option :| option in todo;
        ghost var done := opts.Keys - todo;
        ViewHasDefault(State());
        OverrideOne(l, Listed(), section, opts, done, option);
        var _ := AddOption(section, option, opts[option].v);
        todo := todo - {option};
        assert done + {option} == opts.Keys - todo;
      }
      assert opts.Keys - todo == opts.Keys;
    }

    /** Every option of the source, under any order of the Go maps, overwrites the target's. */
    method Merge(source: Config?)
      requires Ok() && (source != null ==> source.Ok())
      modifies this
      ensures Ok()
      ensures source == null ==> Listed() == old(Listed())
      ensures source != null ==> MergedInto(old(Listed()), old(source.Listed()), Listed())
    {
      hide Valid, View;
      // a configuration always holds its default section, so only nil has nothing to merge
      if source == null {
        return;
      }
      ghost var l, st := Listed(), source.State();
      var data := source.data;
      MergeSections(data, st);
      AllMerged(st, l, Listed());
    }

    method MergeSections(data: map<string, map<string, TValue>>, ghost st: Store)
      requires Ok() && Valid(st) && st.data == data
      modifies this
      ensures Ok() && PartMerged(old(Listed()), data, data.Keys, Listed())
    {
      hide Valid, View, PartMerged, Overridden;
      ghost var l := Listed();
      MergeNone(l, data);
      var todo := data.Keys;
      assert data.Keys - todo == {};
      while todo != {}
        invariant todo <= data.Keys
        invariant Ok() && PartMerged(l, data, data.Keys - todo, Listed())
      {
        var section :| section in todo;
        ghost var done, l1 := data.Keys - todo, Listed();
        SectionNamed(st, section);
        MergeSection(section, data[section]);
        MergeOne(l, data, done, section, l1, Listed());
        todo := todo - {section};
        assert done + {section} == data.Keys - todo;
      }
      assert data.Keys - todo == data.Keys;
    }
  }

  // ---------------------------------------------------------------- merging, by lookup

  /** One section of `l` overridden by `opts`; nothing else changed. */
  ghost predicate Overridden(l: Listing, l': Listing, section: string, opts: map<string, TValue>) {
    && (forall s, o :: Lookup(l', s, o) ==
          if s == section && o in opts then Some(opts[o].v) else Lookup(l, s, o))
    && l'.options.Keys == l.options.Keys + (if opts == map[] then {} else {section})
  }

  ghost function Taken(opts: map<string, TValue>, done: set<string>): map<string, TValue> {
    map o | o in done && o in opts :: opts[o]
  }

  lemma TakenEnds(l: Listing, section: string, opts: map<string, TValue>)
    ensures Overridden(l, l, section, Taken(opts, {})) && Taken(opts, opts.Keys) == opts
  {
  }

  lemma OverrideOne(l: Listing, l': Listing, section: string, opts: map<string, TValue>, done: set<string>, option: string)
    requires section != "" && DEFAULT_SECTION in l'.options
    requires option in opts && Overridden(l, l', section, Taken(opts, done))
    ensures Overridden(l, ConfigListing.AddOption(l', section, option, opts[option].v), section, Taken(opts, done + {option}))
  {
    LookupAdded(l', section, option, opts[option].v);
    assert option in Taken(opts, done + {option});
  }

  /** The sections in `done` have been merged. */
  ghost predicate PartMerged(l: Listing, data: map<string, map<string, TValue>>, done: set<string>, l': Listing)
    requires done <= data.Keys
  {
    && (forall s, o :: Lookup(l', s, o) ==
          if s in done && o in data[s] then Some(data[s][o].v) else Lookup(l, s, o))
    && l'.options.Keys == l.options.Keys + (set s | s in done && data[s] != map[])
  }

  lemma MergeNone(l: Listing, data: map<string, map<string, TValue>>)
    ensures PartMerged(l, data, {}, l)
  {
  }

  lemma MergeOne(l: Listing, data: map<string, map<string, TValue>>, done: set<string>, section: string,
                 l1: Listing, l2: Listing)
    requires done <= data.Keys && section in data && section !in done
    requires PartMerged(l, data, done, l1) && Overridden(l1, l2, section, data[section])
    ensures PartMerged(l, data, done + {section}, l2)
  {
  }

  lemma SectionNamed(st: Store, s: string)
    requires Valid(st) && s in st.data
    ensures s != ""
  {
  }

  /** Map override, the source winning; a section comes into being only with an option in it. */
  ghost predicate MergedInto(target: Listing, source: Listing, result: Listing) {
    && (forall s, o :: Lookup(result, s, o) ==
          if Lookup(source, s, o).Some? then Lookup(source, s, o) else Lookup(target, s, o))
    && result.options.Keys == target.options.Keys + (set s | s in source.options && source.options[s] != [])
  }

  lemma LookupView(st: Store, s: string, o: string)
    requires Valid(st)
    ensures Lookup(View(st), s, o) == if s in st.data && o in st.data[s] then Some(st.data[s][o].v) else None
  {
    if s in st.data { EntriesFind(st.data[s], LastId(st.lastIdOption, s), o); }
  }

  lemma AllMerged(st: Store, l: Listing, l': Listing)
    requires Valid(st)
    requires PartMerged(l, st.data, st.data.Keys, l')
    ensures MergedInto(l, View(st), l')
  {
    hide Valid, View, Lookup;
    var from := View(st);
    forall s, o
      ensures Lookup(from, s, o) == if s in st.data && o in st.data[s] then Some(st.data[s][o].v) else None
    {
      LookupView(st, s, o);
    }
    assert (set s | s in st.data && st.data[s] != map[]) == (set s | s in from.options && from.options[s] != []) by {
      ViewKeys(st);
      forall s | s in st.data
        ensures st.data[s] == map[] <==> from.options[s] == []
      {
        EmptySection(st, s);
      }
    }
  }

  /**
   * Save one configuration, load the file into a fresh one: exactly the savable ones come back
   * with the same sections and options in the same order, whatever comment and separator style
   * the second one would itself print with.
   */
  method SaveAndLoad(c: Config, header: string, comment: string, mark: char, preSpace: bool, postSpace: bool)
    returns (ok: bool, copy: Config)
    requires c.Ok() && IsComment(comment) && IsMark(mark)
    modifies c
    ensures fresh(copy) && copy.Ok()
    ensures ok && copy.Listed() == old(c.Listed()) <==> old(Savable(c.Listed(), header, c.comment, c.separator))
  {
    hide Valid, View, Savable, FeedAll, Print, Proper;
    ghost var l := c.Listed();
    var text := c.Write(header);
    ExactlySavable(l, header, c.comment, c.separator, text);
    copy := new Config(comment, mark, preSpace, postSpace);
    ok := copy.Read(text);
  }

  lemma ExactlySavable(l: Listing, header: string, comment: string, separator: string, text: string)
    requires Proper(l) && IsComment(comment) && IsSeparator(separator) && text == Print(l, header, comment, separator)
    ensures var p := FeedAll(START, Lines(text));
      p.Some? && p.value.listing == l <==> Savable(l, header, comment, separator)
  {
    ConfigExact.RoundTripExactly(l, header, comment, separator);
  }

  // ---------------------------------------------------------------- printing, section by section

  lemma ViewHasDefault(st: Store)
    requires Valid(st)
    ensures DEFAULT_SECTION in View(st).options
  {
  }

  lemma ViewKeys(st: Store)
    requires Valid(st)
    ensures forall s :: s in View(st).order ==> s in st.data
    ensures View(st).options.Keys == st.data.Keys
    ensures Printed(st.data, st.data, [])
  {
    OrderedMembers(st.idSection, st.lastIdSection);
  }

  lemma EmptySection(st: Store, s: string)
    requires Valid(st) && s in st.data
    ensures st.data[s] == map[] <==> View(st).options[s] == []
  {
    EntriesFind(st.data[s], LastId(st.lastIdOption, s), "");
  }

  lemma SameSection(st: Store, st': Store, s: string)
    requires Valid(st) && Valid(st') && s in st.data && s in st'.data
    requires st'.data[s] == st.data[s] && st'.lastIdOption == st.lastIdOption
    ensures View(st').options[s] == View(st).options[s]
  {
  }

  /** After printing the sections in `done`, they are empty and the others untouched. */
  ghost predicate Printed(before: map<string, map<string, TValue>>, after: map<string, map<string, TValue>>, done: seq<string>) {
    && after.Keys == before.Keys
    && forall s :: s in before ==> after[s] == if s in done then map[] else before[s]
  }

  lemma PrintedNext(before: map<string, map<string, TValue>>, after: map<string, map<string, TValue>>,
                    sections: seq<string>, k: nat)
    requires Distinct(sections) && k < |sections| && sections[k] in before
    requires Printed(before, after, sections[..k])
    ensures sections[k] in after && after[sections[k]] == before[sections[k]]
    ensures Printed(before, after[sections[k] := map[]], sections[..k + 1])
  {
    assert sections[..k + 1] == sections[..k] + [sections[k]];
  }

  lemma PrintSectionsNext(sections: seq<string>, k: nat, options: map<string, seq<Entry>>, separator: string)
    requires k < |sections| && forall s :: s in sections ==> s in options
    ensures PrintSections(sections[..k + 1], options, separator)
         == PrintSections(sections[..k], options, separator) + PrintSection(sections[k], options[sections[k]], separator)
  {
    assert sections[..k + 1][..k] == sections[..k];
  }

  lemma AllPrinted(st: Store, st': Store)
    requires Valid(st) && Valid(st')
    requires st'.idSection == st.idSection && st'.lastIdSection == st.lastIdSection
    requires Printed(st.data, st'.data, View(st).order)
    ensures View(st') == Emptied(View(st))
  {
    OrderedMembers(st.idSection, st.lastIdSection);
    forall s | s in st'.data
      ensures View(st').options[s] == []
    {
      assert s in View(st).order;
      EmptySection(st', s);
    }
    ViewEmptied(View(st), View(st'));
  }

  lemma ViewEmptied(l: Listing, l': Listing)
    requires l'.order == l.order && l'.options.Keys == l.options.Keys
    requires forall s :: s in l'.options ==> l'.options[s] == []
    ensures l' == Emptied(l)
  {
  }

  // ---------------------------------------------------------------- printing, option by option

  lemma PrintAppend(es: seq<Entry>, e: Entry, separator: string)
    ensures PrintEntries(es + [e], separator) == PrintEntries(es, separator) + (e.option + separator + e.value + "\n")
  {
    assert (es + [e])[..|es|] == es;
  }

  ghost function EntriesUpTo(opts: map<string, TValue>, i: nat): seq<Entry>
    requires Injective(Positions(opts))
  {
    OrderedMembers(Positions(opts), i);
    EntriesOf(Ordered(Positions(opts), i), opts)
  }

  lemma OptionsOf(st: Store, s: string)
    requires Valid(st) && s in st.data
    ensures Numbered(st.data[s], LastId(st.lastIdOption, s)) && Injective(Positions(st.data[s]))
    ensures s in View(st).options
    ensures View(st).options[s] == EntriesUpTo(st.data[s], LastId(st.lastIdOption, s))
  {
  }

  lemma EntriesUpToNext(opts: map<string, TValue>, i: nat)
    requires Injective(Positions(opts))
    ensures var k := KeysAt(Positions(opts), i);
      EntriesUpTo(opts, i + 1) ==
        if k == [] then EntriesUpTo(opts, i) else EntriesUpTo(opts, i) + [Entry(k[0], opts[k[0]].v)]
  {
    OrderedMembers(Positions(opts), i);
    var k := KeysAt(Positions(opts), i);
    if k == [] {
      assert Ordered(Positions(opts), i + 1) == Ordered(Positions(opts), i);
    } else {
      EntriesOfAppend(Ordered(Positions(opts), i), k[0], opts);
      assert Ordered(Positions(opts), i + 1) == Ordered(Positions(opts), i) + [k[0]];
    }
  }

  /** `rest` is what remains of `opts` after printing every position below `i`. */
  ghost predicate Rest(opts: map<string, TValue>, rest: map<string, TValue>, i: nat) {
    && (forall o :: o in rest <==> o in opts && opts[o].position >= i)
    && forall o :: o in rest ==> rest[o] == opts[o]
  }

  lemma RestStart(opts: map<string, TValue>)
    requires Injective(Positions(opts))
    ensures Rest(opts, opts, 0) && EntriesUpTo(opts, 0) == []
  {
  }

  lemma RestKnows(opts: map<string, TValue>, rest: map<string, TValue>, i: nat)
    requires Rest(opts, rest, i) && KeysAt(Positions(opts), i) != []
    ensures var o := KeysAt(Positions(opts), i)[0];
      o in rest && o in opts && rest[o] == opts[o]
  {
  }

  lemma RestNext(opts: map<string, TValue>, rest: map<string, TValue>, i: nat)
    requires Injective(Positions(opts)) && Rest(opts, rest, i)
    ensures Injective(Positions(rest))
    ensures KeysAt(Positions(rest), i) == KeysAt(Positions(opts), i)
    ensures var k := KeysAt(Positions(opts), i);
      Rest(opts, if k == [] then rest else rest - {k[0]}, i + 1)
  {
    var k := KeysAt(Positions(opts), i);
    assert forall o :: o in rest ==> Positions(rest)[o] == Positions(opts)[o];
    if k != [] {
      assert k[0] in Positions(rest);
      KeysAtKnown(Positions(rest), k[0]);
    }
  }

  lemma RestEnd(opts: map<string, TValue>, rest: map<string, TValue>, n: nat)
    requires Numbered(opts, n) && Rest(opts, rest, n)
    ensures rest == map[]
  {
    assert forall o :: o in opts ==> Positions(opts)[o] < n;
    assert rest.Keys == {};
  }
}
