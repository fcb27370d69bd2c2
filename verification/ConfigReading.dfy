/**
 * What reading a configuration file comes to (common/config/read.go), told from the characters of
 * its lines: when it fails, and which value each option has afterwards.
 */
module ConfigReading {
  import opened Basics
  import opened ConfigText
  import opened ConfigLine
  import opened ConfigListing
  import opened ConfigFormat

  // ---------------------------------------------------------------- lines by their characters

  /** A line without its comment and trailing blanks. */
  function Text(raw: string): string {
    TrimRight(Uncommented(DropCR(raw)))
  }

  predicate IsNote(l: string) {
    l == "" || l[0] == '#' || l[0] == ';'
  }

  predicate IsTitle(l: string) {
    |l| > 1 && l[0] == '[' && l[|l| - 1] == ']'
  }

  predicate IsInset(l: string) {
    l != "" && (l[0] == ' ' || l[0] == '\t')
  }

  /** The first mark of the line stands at `i`, behind its first character. */
  predicate MarkedAt(l: string, i: nat) {
    0 < i < |l| && (l[i] == '=' || l[i] == ':') && forall j :: 0 <= j < i ==> l[j] != '=' && l[j] != ':'
  }

  ghost predicate IsSetting(l: string) {
    !IsNote(l) && !IsTitle(l) && !IsInset(l) && exists i :: MarkedAt(l, i)
  }

  ghost predicate HasText(s: string) {
    exists i :: 0 <= i < |s| && !IsSpace(s[i])
  }

  /** A title that is not blank between its brackets. */
  ghost predicate NamesSection(l: string) {
    IsTitle(l) && HasText(l[1..|l| - 1])
  }

  /** An option line that is not blank before its mark. */
  ghost predicate NamesOption(l: string) {
    IsSetting(l) && exists i: nat :: MarkedAt(l, i) && HasText(l[..i])
  }

  /** The last title line names a section. */
  ghost predicate SectionOpen(lines: seq<string>) {
    exists k :: 0 <= k < |lines| && NamesSection(Text(lines[k]))
      && forall m :: k < m < |lines| ==> !IsTitle(Text(lines[m]))
  }

  /** The last title or option line is one that names an option. */
  ghost predicate OptionOpen(lines: seq<string>) {
    exists k :: 0 <= k < |lines| && NamesOption(Text(lines[k]))
      && forall m :: k < m < |lines| ==> !IsTitle(Text(lines[m])) && !IsSetting(Text(lines[m]))
  }

  /** Line `k` cannot be read: it is too long, says nothing known, or continues no value. */
  ghost predicate Refused(lines: seq<string>, k: nat)
    requires k < |lines|
  {
    var l := Text(lines[k]);
    || ByteLength(lines[k]) > 65535
    || (&& !IsNote(l) && !IsTitle(l)
        && (IsInset(l) ==> !(SectionOpen(lines[..k]) && OptionOpen(lines[..k])))
        && (!IsInset(l) ==> forall i :: !MarkedAt(l, i)))
  }

  /** A blank or tab and then a semicolon or hash sign. */
  predicate NoteAt(raw: string, i: int) {
    0 <= i && i + 1 < |raw| && (raw[i] == ' ' || raw[i] == '\t') && (raw[i + 1] == ';' || raw[i + 1] == '#')
  }

  /** From `from` on there is only white space up to `j`, where the first note of the line is, or its end. */
  ghost predicate OnlyNote(raw: string, from: nat, j: nat) {
    && from <= j <= |raw| && (forall i :: from <= i < j ==> IsSpace(raw[i]))
    && (j == |raw| || NoteAt(raw, j)) && forall i :: 0 <= i < j ==> !NoteAt(raw, i)
  }

  lemma NotesOf(raw: string, i: int)
    ensures CommentAt(DropCR(raw), i) <==> NoteAt(raw, i)
  {
  }

  /** The text ends in no white space, and after it come only white space and the first note of the line, if any. */
  lemma TextExactly(raw: string)
    ensures var t := Text(raw);
      t <= raw && (t != "" ==> !IsSpace(t[|t| - 1])) && exists j :: OnlyNote(raw, |t|, j)
  {
    var line := DropCR(raw);
    var cut := FirstComment(line);
    var t := Text(raw);
    TrimRightSpec(line[..cut]);
    assert line <= raw;
    assert forall i :: |t| <= i < cut ==> line[..cut][|t|..][i - |t|] == raw[i];
    forall i ensures CommentAt(line, i) <==> NoteAt(raw, i) { NotesOf(raw, i); }
    hide TrimRight, CommentAt, NoteAt;
    if cut < |line| {
      assert OnlyNote(raw, |t|, cut);
    } else {
      EndIsSpace(raw);
      NoteIsBeforeEnd(raw);
      assert OnlyNote(raw, |t|, |raw|);
    }
  }

  lemma EndIsSpace(raw: string)
    ensures forall i :: |DropCR(raw)| <= i < |raw| ==> IsSpace(raw[i])
  {
  }

  lemma NoteIsBeforeEnd(raw: string)
    ensures forall i :: |DropCR(raw)| <= i ==> !NoteAt(raw, i)
  {
  }

  /** The places of the characters of a text from a code on. */
  function From(s: string, code: int): set<int> {
    set i | 0 <= i < |s| && s[i] as int >= code
  }

  lemma FromMore(s: string, c: char, code: int)
    ensures |From(s + [c], code)| == |From(s, code)| + (if c as int >= code then 1 else 0)
  {
    assert forall i :: 0 <= i < |s| ==> (s + [c])[i] == s[i];
    if c as int >= code {
      assert From(s + [c], code) == From(s, code) + {|s|};
    } else {
      assert From(s + [c], code) == From(s, code);
    }
  }

  /** The length in UTF-8: a byte for each character, and one more from each of the codes 0x80, 0x800 and 0x10000 on. */
  lemma {:induction false} BytesExactly(s: string)
    ensures ByteLength(s) == |s| + |From(s, 0x80)| + |From(s, 0x800)| + |From(s, 0x10000)|
  {
    if s == "" {
      assert From(s, 0x80) == {} && From(s, 0x800) == {} && From(s, 0x10000) == {};
    } else {
      hide From;
      var init, c := s[..|s| - 1], s[|s| - 1];
      assert s == init + [c];
      BytesExactly(init);
      FromMore(init, c, 0x80);
      FromMore(init, c, 0x800);
      FromMore(init, c, 0x10000);
    }
  }

  // ---------------------------------------------------------------- what one line does

  lemma {:induction false} TrimRightBlank(s: string)
    ensures TrimRight(s) == "" <==> !HasText(s)
  {
    if s != "" {
      if IsSpace(s[|s| - 1]) {
        TrimRightBlank(s[..|s| - 1]);
        assert forall i :: 0 <= i < |s| - 1 ==> s[..|s| - 1][i] == s[i];
      } else {
        assert !IsSpace(s[|s| - 1]);
      }
    }
  }

  lemma TrimBlank(s: string)
    ensures TrimSpace(s) == "" <==> !HasText(s)
  {
    var k := TrimLeftSpec(s);
    TrimRightBlank(s[k..]);
    assert forall j :: 0 <= j < k ==> s[..k][j] == s[j];
    if HasText(s) {
      var i :| 0 <= i < |s| && !IsSpace(s[i]);
      assert i >= k;
      assert s[k..][i - k] == s[i];
    }
    if HasText(s[k..]) {
      var i :| 0 <= i < |s[k..]| && !IsSpace(s[k..][i]);
      assert s[k + i] == s[k..][i];
    }
  }

  lemma MarkIsFirst(l: string)
    ensures forall i :: MarkedAt(l, i) ==> i == FirstMark(l)
    ensures (exists i :: MarkedAt(l, i)) <==> 0 < FirstMark(l) < |l|
  {
    if 0 < FirstMark(l) < |l| { assert MarkedAt(l, FirstMark(l)); }
  }

  function TitleOf(l: string): string
    requires IsTitle(l)
  {
    TrimSpace(l[1..|l| - 1])
  }

  function NameOf(l: string): string { TrimSpace(l[..FirstMark(l)]) }

  function ValueIn(l: string): string
    requires FirstMark(l) < |l|
  {
    TrimSpace(l[FirstMark(l) + 1..])
  }

  function Continued(p: Parser, text: string): Listing
    requires DEFAULT_SECTION in p.listing.options
  {
    var prev := Raw(p.listing, p.section, p.option);
    AddOption(p.listing, p.section, p.option, (if prev.Some? then prev.value else "") + "\n" + text)
  }

  lemma LineFed(p: Parser, raw: string)
    requires DEFAULT_SECTION in p.listing.options
    ensures var l, q := Text(raw), Feed(p, raw);
      && (ByteLength(raw) > 65535 ==> q == None)
      && (ByteLength(raw) <= 65535 ==>
            && (IsNote(l) ==> q == Some(p))
            && (IsTitle(l) ==> q == Some(Parser(AddSection(p.listing, TitleOf(l)), TitleOf(l), "")))
            && (IsInset(l) ==>
                  q == if p.section != "" && p.option != "" then Some(p.(listing := Continued(p, TrimSpace(l)))) else None)
            && (IsSetting(l) ==>
                  && FirstMark(l) < |l|
                  && q == Some(Parser(AddOption(p.listing, p.section, NameOf(l), ValueIn(l)), p.section, NameOf(l))))
            && (!IsNote(l) && !IsTitle(l) && !IsInset(l) && !IsSetting(l) ==> q == None))
  {
    hide TrimRight, Uncommented, DropCR, ByteLength, AddOption, AddSection, Raw, TrimSpace, MarkedAt;
    MarkIsFirst(Text(raw));
    assert Feed(p, raw) == if ByteLength(raw) > MAX_LINE then None else Obey(p, Understand(Text(raw)));
  }

  // ---------------------------------------------------------------- section and option along the lines

  /** The name of the section that is open after the lines, empty at the start. */
  function OpenSection(lines: seq<string>): string {
    if lines == [] then ""
    else
      var l := Text(lines[|lines| - 1]);
      if IsTitle(l) then TitleOf(l) else OpenSection(lines[..|lines| - 1])
  }

  ghost function OpenOption(lines: seq<string>): string {
    if lines == [] then ""
    else
      var l := Text(lines[|lines| - 1]);
      if IsTitle(l) then "" else if IsSetting(l) then NameOf(l) else OpenOption(lines[..|lines| - 1])
  }

  lemma {:induction false} OpenSectionIs(lines: seq<string>)
    ensures OpenSection(lines) != "" <==> SectionOpen(lines)
  {
    hide Text, IsTitle, TitleOf, NamesSection;
    if lines != [] {
      var n := |lines| - 1;
      var init, l := lines[..n], Text(lines[n]);
      OpenSectionIs(init);
      TitleBlank(l);
      if !IsTitle(l) && SectionOpen(init) {
        var k :| 0 <= k < n && NamesSection(Text(init[k])) && forall m :: k < m < n ==> !IsTitle(Text(init[m]));
        assert NamesSection(Text(lines[k])) && forall m :: k < m < n ==> lines[m] == init[m];
      }
      if !IsTitle(l) && SectionOpen(lines) {
        var k :| 0 <= k < |lines| && NamesSection(Text(lines[k])) && forall m :: k < m < |lines| ==> !IsTitle(Text(lines[m]));
        assert NamesSection(Text(init[k])) && forall m :: k < m < n ==> lines[m] == init[m];
      }
    }
  }

  lemma TitleBlank(l: string)
    ensures NamesSection(l) <==> IsTitle(l) && TitleOf(l) != ""
  {
    if IsTitle(l) { TrimBlank(l[1..|l| - 1]); }
  }

  lemma {:induction false} OpenOptionIs(lines: seq<string>)
    ensures OpenOption(lines) != "" <==> OptionOpen(lines)
  {
    hide Text, IsTitle, IsSetting, NameOf, NamesOption;
    if lines != [] {
      var n := |lines| - 1;
      var init, l := lines[..n], Text(lines[n]);
      OpenOptionIs(init);
      OptionBlank(l);
      if !IsTitle(l) && !IsSetting(l) && OptionOpen(init) {
        var k :| 0 <= k < n && NamesOption(Text(init[k]))
          && forall m :: k < m < n ==> !IsTitle(Text(init[m])) && !IsSetting(Text(init[m]));
        assert NamesOption(Text(lines[k])) && forall m :: k < m < n ==> lines[m] == init[m];
      }
      if !IsTitle(l) && !IsSetting(l) && OptionOpen(lines) {
        var k :| 0 <= k < |lines| && NamesOption(Text(lines[k]))
          && forall m :: k < m < |lines| ==> !IsTitle(Text(lines[m])) && !IsSetting(Text(lines[m]));
        assert NamesOption(Text(init[k])) && forall m :: k < m < n ==> lines[m] == init[m];
      }
    }
  }

  lemma OptionBlank(l: string)
    ensures NamesOption(l) <==> IsSetting(l) && NameOf(l) != ""
    ensures IsSetting(l) ==> !IsTitle(l)
  {
    MarkIsFirst(l);
    TrimBlank(l[..FirstMark(l)]);
  }

  // ---------------------------------------------------------------- when reading fails

  lemma FeedLast(p: Parser, lines: seq<string>, last: string)
    requires DEFAULT_SECTION in p.listing.options
    ensures var before := FeedAll(p, lines);
      FeedAll(p, lines + [last]) == if before == None then None else Feed(before.value, last)
  {
    hide Feed;
    if FeedAll(p, lines).Some? {
      FeedConcat(p, lines, [last]);
      FeedOne(FeedAll(p, lines).value, last);
    } else {
      FeedNone(p, lines, [last]);
    }
  }

  lemma FeedOne(p: Parser, last: string)
    requires DEFAULT_SECTION in p.listing.options
    ensures FeedAll(p, [last]) == Feed(p, last)
  {
    hide Feed;
    var q := Feed(p, last);
    assert [last][1..] == [];
    if q.Some? { assert FeedAll(q.value, []) == q; }
  }

  lemma {:induction false} FeedNone(p: Parser, a: seq<string>, b: seq<string>)
    requires DEFAULT_SECTION in p.listing.options && FeedAll(p, a) == None
    ensures FeedAll(p, a + b) == None
    decreases |a|
  {
    hide Feed;
    assert (a + b)[1..] == a[1..] + b;
    if Feed(p, a[0]).Some? { FeedNone(Feed(p, a[0]).value, a[1..], b); }
  }

  lemma RefusedInit(init: seq<string>, last: string, k: nat)
    requires k < |init|
    ensures Refused(init + [last], k) <==> Refused(init, k)
  {
    hide Text, SectionOpen, OptionOpen, ByteLength;
    assert (init + [last])[..k] == init[..k];
  }

  /** Along the lines that can be read, the reader knows the open section and option. */
  lemma {:induction false} ReaderKnows(l: Listing, lines: seq<string>)
    requires DEFAULT_SECTION in l.options
    ensures var p := FeedAll(Parser(l, "", ""), lines);
      && (p == None <==> exists k :: 0 <= k < |lines| && Refused(lines, k))
      && (p.Some? ==> p.value.section == OpenSection(lines) && p.value.option == OpenOption(lines))
  {
    hide Text, Feed, Refused, IsTitle, IsSetting, NameOf, TitleOf;
    if lines != [] {
      var n := |lines| - 1;
      var init, last := lines[..n], lines[n];
      assert init + [last] == lines;
      ReaderKnows(l, init);
      FeedLast(Parser(l, "", ""), init, last);
      forall k | 0 <= k < n ensures Refused(lines, k) <==> Refused(init, k) { RefusedInit(init, last, k); }
      var before := FeedAll(Parser(l, "", ""), init);
      if before.Some? { LastKnown(before.value, init, last); }
    }
  }

  lemma LastKnown(p: Parser, init: seq<string>, last: string)
    requires DEFAULT_SECTION in p.listing.options
    requires p.section == OpenSection(init) && p.option == OpenOption(init)
    ensures var q, lines := Feed(p, last), init + [last];
      && (q == None <==> Refused(lines, |init|))
      && (q.Some? ==> q.value.section == OpenSection(lines) && q.value.option == OpenOption(lines))
  {
    hide Text, Feed, NameOf, AddOption, AddSection, Continued, SectionOpen, OptionOpen, ByteLength, MarkedAt;
    var lines := init + [last];
    assert lines[..|init|] == init;
    LineFed(p, last);
    OpenSectionIs(init);
    OpenOptionIs(init);
  }

  /**
   * Reading a file onto any configuration fails exactly when some line is too long, or, without its
   * comment and trailing blanks, is neither empty nor a comment nor a title and either starts with
   * a blank where no section and option are open, or has no mark behind its first character before
   * any other.
   */
  lemma ReadingFailsExactly(l: Listing, text: string)
    requires DEFAULT_SECTION in l.options
    ensures FeedAll(Parser(l, "", ""), Lines(text)) == None
      <==> exists k :: 0 <= k < |Lines(text)| && Refused(Lines(text), k)
  {
    hide Refused, FeedAll, Lines;
    ReaderKnows(l, Lines(text));
  }

  // ---------------------------------------------------------------- what reading yields

  /**
   * The value of an option after the lines: that of the last option line of its section with its
   * name, with the blank-led lines that continue it added to it; before the first the one it had.
   */
  ghost function ValueAfter(l: Listing, lines: seq<string>, section: string, option: string): Option<string> {
    if lines == [] then Lookup(l, section, option)
    else
      var init, text := lines[..|lines| - 1], Text(lines[|lines| - 1]);
      var before := ValueAfter(l, init, section, option);
      if IsSetting(text) && FirstMark(text) < |text| && Resolve(OpenSection(init)) == section && NameOf(text) == option
      then Some(ValueIn(text))
      else if IsInset(text) && OpenSection(init) == section && OpenOption(init) == option && before.Some?
      then Some(before.value + "\n" + TrimSpace(text))
      else before
  }

  /** The sections after the lines: those there were, then each new title once, in the order of the file. */
  ghost function SectionsAfter(l: Listing, lines: seq<string>): seq<string> {
    if lines == [] then l.order
    else
      var init, text := lines[..|lines| - 1], Text(lines[|lines| - 1]);
      var before := SectionsAfter(l, init);
      if IsTitle(text) && TitleOf(text) != "" && TitleOf(text) !in before then before + [TitleOf(text)] else before
  }

  /** The listing knows its sections, an open section and an option opened in it. */
  ghost predicate Known(p: Parser) {
    && DEFAULT_SECTION in p.listing.options
    && (forall s :: s in p.listing.order <==> s in p.listing.options)
    && Resolve(p.section) in p.listing.options
    && (p.option != "" ==> Lookup(p.listing, Resolve(p.section), p.option).Some?)
  }

  lemma AddOptionKnown(p: Parser, option: string, value: string)
    requires Known(p)
    ensures Known(Parser(AddOption(p.listing, p.section, option, value), p.section, option))
    ensures AddOption(p.listing, p.section, option, value).order == p.listing.order
    ensures forall s, o ::
      Lookup(AddOption(p.listing, p.section, option, value), s, o)
      == (if s == Resolve(p.section) && o == option then Some(value) else Lookup(p.listing, s, o))
  {
    var l, s := p.listing, Resolve(p.section);
    assert AddOption(l, p.section, option, value) == AddOption(l, s, option, value);
    hide AddOption, Lookup;
    LookupAdded(l, s, option, value);
    AddOptionKeepsOrder(l, s, option, value);
  }

  lemma AddOptionKeepsOrder(l: Listing, section: string, option: string, value: string)
    requires DEFAULT_SECTION in l.options && section in l.options
    ensures AddOption(l, section, option, value).order == l.order
  {
  }

  lemma AddSectionKnown(p: Parser, name: string)
    requires Known(p)
    ensures var l := AddSection(p.listing, name);
      && Known(Parser(l, name, ""))
      && l.order == (if name != "" && name !in p.listing.order then p.listing.order + [name] else p.listing.order)
      && forall s, o :: Lookup(l, s, o) == Lookup(p.listing, s, o)
  {
  }

  /**
   * Whatever file is read onto a configuration without failing: every option has the value of its
   * last line and of the lines that continue it, every other one keeps the value it had, and new
   * sections follow in the order of their titles.
   */
  lemma {:induction false} ReadingMeans(l: Listing, lines: seq<string>)
    requires DEFAULT_SECTION in l.options && forall s :: s in l.order <==> s in l.options
    requires FeedAll(Parser(l, "", ""), lines).Some?
    ensures var p := FeedAll(Parser(l, "", ""), lines).value;
      && Known(p) && p.listing.order == SectionsAfter(l, lines)
      && forall s, o :: Lookup(p.listing, s, o) == ValueAfter(l, lines, s, o)
  {
    hide Text, Feed, Refused, Known, Lookup, IsSetting, IsTitle, IsInset;
    if lines == [] {
      StartKnown(l);
    } else {
      var n := |lines| - 1;
      var init, last := lines[..n], lines[n];
      assert init + [last] == lines;
      FeedLast(Parser(l, "", ""), init, last);
      ReadingMeans(l, init);
      ReaderKnows(l, init);
      LastMeans(FeedAll(Parser(l, "", ""), init).value, l, init, last);
    }
  }

  lemma StartKnown(l: Listing)
    requires DEFAULT_SECTION in l.options && forall s :: s in l.order <==> s in l.options
    ensures Known(Parser(l, "", ""))
  {
  }

  lemma LastMeans(p: Parser, l: Listing, init: seq<string>, last: string)
    requires Known(p) && p.listing.order == SectionsAfter(l, init)
    requires forall s, o :: Lookup(p.listing, s, o) == ValueAfter(l, init, s, o)
    requires p.section == OpenSection(init) && p.option == OpenOption(init)
    requires Feed(p, last).Some?
    ensures var q, lines := Feed(p, last).value, init + [last];
      && Known(q) && q.listing.order == SectionsAfter(l, lines)
      && forall s, o :: Lookup(q.listing, s, o) == ValueAfter(l, lines, s, o)
  {
    hide Text, Feed, Lookup, AddOption, AddSection, ByteLength, MarkedAt, NameOf, ValueIn, TitleOf, Known,
      OpenSection, OpenOption, Raw;
    var text, lines := Text(last), init + [last];
    assert lines[..|init|] == init;
    KnownHasDefault(p);
    LineFed(p, last);
    if IsTitle(text) {
      AddSectionKnown(p, TitleOf(text));
    } else if IsSetting(text) {
      AddOptionKnown(p, NameOf(text), ValueIn(text));
    } else if IsInset(text) {
      OpenIsThere(p);
      AddOptionKnown(p, p.option, Lookup(p.listing, p.section, p.option).value + "\n" + TrimSpace(text));
    }
  }

  lemma KnownHasDefault(p: Parser)
    requires Known(p)
    ensures DEFAULT_SECTION in p.listing.options
  {
  }

  lemma OpenIsThere(p: Parser)
    requires Known(p) && p.section != "" && p.option != ""
    ensures Resolve(p.section) == p.section
    ensures Lookup(p.listing, p.section, p.option).Some?
    ensures Raw(p.listing, p.section, p.option) == Lookup(p.listing, p.section, p.option)
  {
  }
}
