/**
 * The file format: printing a configuration (common/config/write.go) and reading one
 * (common/config/read.go), over listings.
 */
module ConfigFormat {
  import opened Basics
  import opened ConfigText
  import opened ConfigLine
  import opened ConfigListing

  // ---------------------------------------------------------------- lines of a text

  /** bufio.MaxScanTokenSize less the byte that must hold the line break. */
  const MAX_LINE := 65535

  /** The length of a text in UTF-8. */
  function ByteLength(s: string): nat {
    if s == "" then 0
    else ByteLength(s[..|s| - 1]) +
         (var c := s[|s| - 1];
          if c < '\U{80}' then 1 else if c < '\U{800}' then 2 else if c < '\U{10000}' then 3 else 4)
  }

  predicate SingleLine(s: string) {
    forall i :: 0 <= i < |s| ==> s[i] != '\n'
  }

  function NewlineAt(s: string): (k: nat)
    ensures k <= |s|
    ensures k < |s| ==> s[k] == '\n'
    ensures SingleLine(s[..k])
  {
    if s == "" || s[0] == '\n' then 0
    else
      var k := 1 + NewlineAt(s[1..]);
      assert s[..k] == [s[0]] + s[1..][..k - 1];
      k
  }

  /** The lines of a text; a final line need not be closed. */
  function Lines(text: string): seq<string> {
    if text == "" then []
    else
      var k := NewlineAt(text);
      [text[..k]] + (if k < |text| then Lines(text[k + 1..]) else [])
  }

  /** The scanner drops one carriage return before the line break. */
  function DropCR(line: string): string {
    if line != "" && line[|line| - 1] == '\r' then line[..|line| - 1] else line
  }

  function Unlines(lines: seq<string>): string {
    if lines == [] then "" else lines[0] + "\n" + Unlines(lines[1..])
  }

  lemma LinesOfFirst(line: string, rest: string)
    requires SingleLine(line)
    ensures Lines(line + "\n" + rest) == [line] + Lines(rest)
  {
    var text := line + "\n" + rest;
    assert text[|line|] == '\n';
    var k := NewlineAt(text);
    assert forall i :: 0 <= i < k ==> text[..k][i] == text[i];
    assert forall i :: 0 <= i < |line| ==> text[i] == line[i];
    assert k == |line|;
    assert text[..k] == line && text[k + 1..] == rest;
  }

  lemma {:induction false} LinesOfUnlines(lines: seq<string>)
    requires forall l :: l in lines ==> SingleLine(l)
    ensures Lines(Unlines(lines)) == lines
  {
    if lines != [] {
      LinesOfUnlines(lines[1..]);
      LinesOfFirst(lines[0], Unlines(lines[1..]));
      assert lines == [lines[0]] + lines[1..];
    }
  }

  lemma LinesOfOne(line: string)
    requires SingleLine(line) && line != ""
    ensures Lines(line) == [line]
  {
    assert NewlineAt(line) == |line|;
    assert line[..|line|] == line;
  }

  /** A last line need not be closed, unless it is empty. */
  lemma {:induction false} LinesOfOpenEnd(lines: seq<string>, last: string)
    requires (forall l :: l in lines ==> SingleLine(l)) && SingleLine(last) && last != ""
    ensures Lines(Unlines(lines) + last) == lines + [last]
  {
    hide Lines, SingleLine;
    if lines == [] {
      assert Unlines([]) + last == last && [] + [last] == [last];
      LinesOfOne(last);
    } else {
      LinesOfOpenEnd(lines[1..], last);
      LinesOfFirst(lines[0], Unlines(lines[1..]) + last);
      assert lines[0] + "\n" + Unlines(lines[1..]) + last == lines[0] + "\n" + (Unlines(lines[1..]) + last);
      assert lines + [last] == [lines[0]] + (lines[1..] + [last]);
    }
  }

  lemma {:induction false} UnlinesConcat(a: seq<string>, b: seq<string>)
    ensures Unlines(a + b) == Unlines(a) + Unlines(b)
  {
    if a == [] {
      assert a + b == b;
    } else {
      UnlinesConcat(a[1..], b);
      assert (a + b)[1..] == a[1..] + b;
    }
  }

  // ---------------------------------------------------------------- reading

  datatype Parser = Parser(listing: Listing, section: string, option: string)

  /** What one understood line does to the parser; None when it cannot be parsed here. */
  function Obey(p: Parser, line: Line): (r: Option<Parser>)
    requires DEFAULT_SECTION in p.listing.options
    ensures r.Some? ==> DEFAULT_SECTION in r.value.listing.options
  {
    match line
    case Blank => Some(p)
    case Header(name) => Some(Parser(AddSection(p.listing, name), name, ""))
    case Indented(text) =>
      if p.section != "" && p.option != "" then
        var prev := Raw(p.listing, p.section, p.option);
        var value := (if prev.Some? then prev.value else "") + "\n" + text;
        Some(p.(listing := AddOption(p.listing, p.section, p.option, value)))
      else None
    case Setting(option, value) =>
      Some(Parser(AddOption(p.listing, p.section, option, value), p.section, option))
    case Bad => None
  }

  /** One line of a file; None when the scanner or the parser gives up. */
  function Feed(p: Parser, raw: string): (r: Option<Parser>)
    requires DEFAULT_SECTION in p.listing.options
    ensures r.Some? ==> DEFAULT_SECTION in r.value.listing.options
  {
    if ByteLength(raw) > MAX_LINE then None else Obey(p, Classify(DropCR(raw)))
  }

  function FeedAll(p: Parser, lines: seq<string>): (r: Option<Parser>)
    requires DEFAULT_SECTION in p.listing.options
    ensures r.Some? ==> DEFAULT_SECTION in r.value.listing.options
    decreases |lines|
  {
    if lines == [] then Some(p)
    else
      var q := Feed(p, lines[0]);
      if q.None? then None else FeedAll(q.value, lines[1..])
  }

  lemma {:induction false} FeedConcat(p: Parser, a: seq<string>, b: seq<string>)
    requires DEFAULT_SECTION in p.listing.options
    requires FeedAll(p, a).Some?
    ensures FeedAll(p, a + b) == FeedAll(FeedAll(p, a).value, b)
    decreases |a|
  {
    hide Feed;
    if a == [] {
      assert a + b == b;
    } else {
      FeedConcat(Feed(p, a[0]).value, a[1..], b);
      assert (a + b)[1..] == a[1..] + b;
    }
  }

  // ---------------------------------------------------------------- printing

  function Mend(header: string, comment: string): string {
    if header == "" then ""
    else (if header[0] == '\n' then "\n" + comment else [header[0]]) + Mend(header[1..], comment)
  }

  function PrintHeader(header: string, comment: string): string {
    if header == "" then "" else comment + Mend(header, comment) + "\n"
  }

  function PrintEntries(es: seq<Entry>, separator: string): string {
    if es == [] then ""
    else
      var e := es[|es| - 1];
      PrintEntries(es[..|es| - 1], separator) + (e.option + separator + e.value + "\n")
  }

  function PrintSection(name: string, es: seq<Entry>, separator: string): string {
    if name == DEFAULT_SECTION && es == [] then ""
    else "\n[" + name + "]\n" + PrintEntries(es, separator)
  }

  function PrintSections(order: seq<string>, options: map<string, seq<Entry>>, separator: string): string
    requires forall s :: s in order ==> s in options
  {
    if order == [] then ""
    else
      var s := order[|order| - 1];
      PrintSections(order[..|order| - 1], options, separator) + PrintSection(s, options[s], separator)
  }

  function Print(l: Listing, header: string, comment: string, separator: string): string
    requires forall s :: s in l.order ==> s in l.options
  {
    PrintHeader(header, comment) + PrintSections(l.order, l.options, separator) + "\n"
  }

  // ---------------------------------------------------------------- the same text as lines

  function EntryLines(es: seq<Entry>, separator: string): seq<string> {
    if es == [] then []
    else
      var e := es[|es| - 1];
      EntryLines(es[..|es| - 1], separator) + [e.option + separator + e.value]
  }

  function SectionLines(name: string, es: seq<Entry>, separator: string): seq<string> {
    if name == DEFAULT_SECTION && es == [] then []
    else ["", "[" + name + "]"] + EntryLines(es, separator)
  }

  function SectionsLines(order: seq<string>, options: map<string, seq<Entry>>, separator: string): seq<string>
    requires forall s :: s in order ==> s in options
  {
    if order == [] then []
    else
      var s := order[|order| - 1];
      SectionsLines(order[..|order| - 1], options, separator) + SectionLines(s, options[s], separator)
  }

  lemma UnlinesOne(line: string)
    ensures Unlines([line]) == line + "\n"
  {
  }

  lemma {:induction false} EntriesAsLines(es: seq<Entry>, separator: string)
    ensures PrintEntries(es, separator) == Unlines(EntryLines(es, separator))
  {
    if es != [] {
      EntriesAsLines(es[..|es| - 1], separator);
      UnlinesConcat(EntryLines(es[..|es| - 1], separator), [es[|es| - 1].option + separator + es[|es| - 1].value]);
      UnlinesOne(es[|es| - 1].option + separator + es[|es| - 1].value);
    }
  }

  lemma SectionAsLines(name: string, es: seq<Entry>, separator: string)
    ensures PrintSection(name, es, separator) == Unlines(SectionLines(name, es, separator))
  {
    EntriesAsLines(es, separator);
    UnlinesConcat(["", "[" + name + "]"], EntryLines(es, separator));
    UnlinesConcat([""], ["[" + name + "]"]);
    assert [""] + ["[" + name + "]"] == ["", "[" + name + "]"];
    UnlinesOne("");
    UnlinesOne("[" + name + "]");
    assert "\n[" + name + "]\n" == "" + "\n" + ("[" + name + "]" + "\n");
  }

  lemma {:induction false} SectionsAsLines(order: seq<string>, options: map<string, seq<Entry>>, separator: string)
    requires forall s :: s in order ==> s in options
    ensures PrintSections(order, options, separator) == Unlines(SectionsLines(order, options, separator))
  {
    if order != [] {
      var init, s := order[..|order| - 1], order[|order| - 1];
      SectionsAsLines(init, options, separator);
      SectionAsLines(s, options[s], separator);
      UnlinesConcat(SectionsLines(init, options, separator), SectionLines(s, options[s], separator));
    }
  }

  /** The pieces of a header between its line breaks; never none. */
  function Pieces(header: string): (r: seq<string>)
    ensures r != []
    ensures forall p :: p in r ==> SingleLine(p)
  {
    var k := NewlineAt(header);
    [header[..k]] + (if k < |header| then Pieces(header[k + 1..]) else [])
  }

  function Prefixed(comment: string, pieces: seq<string>): (r: seq<string>)
    ensures |r| == |pieces|
    ensures forall i :: 0 <= i < |r| ==> r[i] == comment + pieces[i]
  {
    seq(|pieces|, i requires 0 <= i < |pieces| => comment + pieces[i])
  }

  function HeaderLines(header: string, comment: string): seq<string> {
    if header == "" then [] else Prefixed(comment, Pieces(header))
  }

  lemma {:induction false} MendSingle(s: string, rest: string, comment: string)
    requires SingleLine(s)
    ensures Mend(s + rest, comment) == s + Mend(rest, comment)
  {
    if s == "" {
      assert s + rest == rest;
    } else {
      assert SingleLine(s[1..]);
      MendSingle(s[1..], rest, comment);
      assert (s + rest)[1..] == s[1..] + rest;
      assert s == [s[0]] + s[1..];
    }
  }

  lemma MendBreak(first: string, rest: string, comment: string)
    requires SingleLine(first)
    ensures comment + Mend(first + "\n" + rest, comment) + "\n"
         == (comment + first + "\n") + (comment + Mend(rest, comment) + "\n")
  {
    assert first + "\n" + rest == first + ("\n" + rest);
    MendSingle(first, "\n" + rest, comment);
    assert ("\n" + rest)[1..] == rest;
  }

  lemma UnlinesPrefixed(comment: string, first: string, rest: seq<string>)
    ensures Unlines(Prefixed(comment, [first] + rest)) == (comment + first + "\n") + Unlines(Prefixed(comment, rest))
  {
    assert Prefixed(comment, [first] + rest) == [comment + first] + Prefixed(comment, rest);
    UnlinesConcat([comment + first], Prefixed(comment, rest));
    UnlinesOne(comment + first);
  }

  lemma {:induction false} HeaderAsLines(header: string, comment: string)
    ensures comment + Mend(header, comment) + "\n" == Unlines(Prefixed(comment, Pieces(header)))
    decreases |header|
  {
    var k := NewlineAt(header);
    var first := header[..k];
    if k == |header| {
      MendSingle(first, "", comment);
      assert header == first + "";
      UnlinesPrefixed(comment, first, []);
      assert Pieces(header) == [first] + [];
      assert Unlines(Prefixed(comment, [])) == "";
    } else {
      var rest := header[k + 1..];
      HeaderAsLines(rest, comment);
      assert header == first + "\n" + rest;
      MendBreak(first, rest, comment);
      UnlinesPrefixed(comment, first, Pieces(rest));
    }
  }

  /** The printed text, line by line. */
  function PrintedLines(l: Listing, header: string, comment: string, separator: string): seq<string>
    requires forall s :: s in l.order ==> s in l.options
  {
    HeaderLines(header, comment) + SectionsLines(l.order, l.options, separator) + [""]
  }

  lemma PrintedAsLines(l: Listing, header: string, comment: string, separator: string)
    requires forall s :: s in l.order ==> s in l.options
    ensures Print(l, header, comment, separator) == Unlines(PrintedLines(l, header, comment, separator))
  {
    var a, b := HeaderLines(header, comment), SectionsLines(l.order, l.options, separator);
    HeaderAsLines(header, comment);
    SectionsAsLines(l.order, l.options, separator);
    UnlinesConcat(a + b, [""]);
    UnlinesConcat(a, b);
    UnlinesOne("");
  }

  // ---------------------------------------------------------------- what can be saved

  predicate IsComment(comment: string) { comment == "# " || comment == "; " }

  ghost predicate IsSeparator(separator: string) {
    exists mark, pre, post :: IsMark(mark) && separator == Separator(mark, pre, post)
  }

  predicate Fits(line: string) { SingleLine(line) && ByteLength(line) <= MAX_LINE }

  predicate EntryOk(e: Entry, separator: string) {
    SettingOk(e.option, e.value, separator) && Fits(e.option + separator + e.value)
  }

  /** The order lists every section once, the default section first. */
  ghost predicate Proper(l: Listing) {
    && l.order != [] && l.order[0] == DEFAULT_SECTION
    && Distinct(l.order)
    && (forall s :: s in l.order <==> s in l.options)
    && "" !in l.options
    && forall s :: s in l.options ==> UniqueOptions(l.options[s])
  }

  /** Every name, option and value can be written on one line and read back from it. */
  ghost predicate Savable(l: Listing, header: string, comment: string, separator: string) {
    && (forall p :: p in Pieces(header) ==> ByteLength(comment + p) <= MAX_LINE)
    && (forall s :: s in l.options ==> NameOk(s) && Fits("[" + s + "]"))
    && forall s :: s in l.options ==> forall e :: e in l.options[s] ==> EntryOk(e, separator)
  }

  // ---------------------------------------------------------------- reading what was printed

  lemma FeedHeaderLine(p: Parser, comment: string, piece: string)
    requires DEFAULT_SECTION in p.listing.options
    requires IsComment(comment) && ByteLength(comment + piece) <= MAX_LINE
    ensures Feed(p, comment + piece) == Some(p)
  {
    CommentLineIsBlank(DropCR(comment + piece));
  }

  lemma {:induction false} FeedHeader(p: Parser, comment: string, pieces: seq<string>)
    requires DEFAULT_SECTION in p.listing.options
    requires IsComment(comment)
    requires forall s :: s in pieces ==> ByteLength(comment + s) <= MAX_LINE
    ensures FeedAll(p, Prefixed(comment, pieces)) == Some(p)
  {
    if pieces != [] {
      FeedHeaderLine(p, comment, pieces[0]);
      FeedHeader(p, comment, pieces[1..]);
      assert Prefixed(comment, pieces)[1..] == Prefixed(comment, pieces[1..]);
    }
  }

  /** The line of an entry is read as a setting of its own option. */
  predicate ReadsAsOption(e: Entry, separator: string) {
    var line := e.option + separator + e.value;
    ByteLength(line) <= MAX_LINE && Classify(DropCR(line)).Setting? && Classify(DropCR(line)).option == e.option
  }

  /** What the reader makes of the line of an entry. */
  function Got(e: Entry, separator: string): Entry {
    match Classify(DropCR(e.option + separator + e.value))
    case Setting(_, value) => Entry(e.option, value)
    case _ => e
  }

  function GotAll(es: seq<Entry>, separator: string): (r: seq<Entry>)
    ensures |r| == |es| && forall i :: 0 <= i < |r| ==> r[i] == Got(es[i], separator)
  {
    seq(|es|, i requires 0 <= i < |es| => Got(es[i], separator))
  }

  function GotListing(l: Listing, separator: string): Listing {
    Listing(l.order, map s | s in l.options :: GotAll(l.options[s], separator))
  }

  /** A good entry is read back as it was. */
  lemma GoodEntryIsGot(e: Entry, separator: string)
    requires IsSeparator(separator) && EntryOk(e, separator)
    ensures ReadsAsOption(e, separator) && Got(e, separator) == e
  {
    var mark, pre, post :| IsMark(mark) && separator == Separator(mark, pre, post);
    SettingRoundTrip(e.option, e.value, mark, pre, post);
    var line := e.option + separator + e.value;
    assert line[|line| - 1] == if e.value != "" then e.value[|e.value| - 1] else separator[|separator| - 1];
    assert DropCR(line) == line;
  }

  lemma FeedSetting(p: Parser, e: Entry, separator: string)
    requires DEFAULT_SECTION in p.listing.options
    requires ReadsAsOption(e, separator)
    ensures Feed(p, e.option + separator + e.value)
         == Some(Parser(AddOption(p.listing, p.section, e.option, Got(e, separator).value), p.section, e.option))
  {
  }

  lemma FeedTitle(p: Parser, name: string)
    requires DEFAULT_SECTION in p.listing.options
    requires NameOk(name) && ByteLength("[" + name + "]") <= MAX_LINE
    ensures FeedAll(p, ["", "[" + name + "]"]) == Some(Parser(AddSection(p.listing, name), name, ""))
  {
    EmptyLineIsBlank();
    assert Feed(p, "") == Some(p);
    HeaderRoundTrip(name);
    var line := "[" + name + "]";
    assert DropCR(line) == line;
    FeedOne(p, line);
    assert ["", line][1..] == [line];
  }

  lemma FeedEmpty(p: Parser)
    requires DEFAULT_SECTION in p.listing.options
    ensures FeedAll(p, [""]) == Some(p)
  {
    EmptyLineIsBlank();
    FeedOne(p, "");
  }

  lemma FeedOne(p: Parser, line: string)
    requires DEFAULT_SECTION in p.listing.options
    ensures FeedAll(p, [line]) == Feed(p, line)
  {
  }

  /** Printed options, read in order, rebuild the list of options. */
  lemma {:induction false} FeedEntries(p: Parser, es: seq<Entry>, separator: string)
    requires DEFAULT_SECTION in p.listing.options
    requires p.section != "" && p.section in p.listing.options && p.listing.options[p.section] == []
    requires UniqueOptions(es)
    requires forall e :: e in es ==> ReadsAsOption(e, separator)
    ensures var q := FeedAll(p, EntryLines(es, separator));
      q.Some? && q.value.section == p.section
      && q.value.listing == p.listing.(options := p.listing.options[p.section := GotAll(es, separator)])
  {
    hide Feed, ReadsAsOption, Got;
    if es == [] {
      assert p.listing.options[p.section := GotAll(es, separator)] == p.listing.options;
    } else {
      var init, e := es[..|es| - 1], es[|es| - 1];
      FeedEntries(p, init, separator);
      var q := FeedAll(p, EntryLines(init, separator)).value;
      FeedConcat(p, EntryLines(init, separator), [e.option + separator + e.value]);
      GotMore(init, e, separator);
      FeedOneEntry(q, GotAll(init, separator), e, separator);
      assert init + [e] == es;
      assert q.listing.options[p.section := GotAll(es, separator)] == p.listing.options[p.section := GotAll(es, separator)];
    }
  }

  lemma GotMore(init: seq<Entry>, e: Entry, separator: string)
    ensures GotAll(init + [e], separator) == GotAll(init, separator) + [Got(e, separator)]
    ensures forall i :: 0 <= i < |init| ==> GotAll(init, separator)[i].option == init[i].option
    ensures Got(e, separator).option == e.option
  {
  }

  lemma FeedOneEntry(q: Parser, init: seq<Entry>, e: Entry, separator: string)
    requires DEFAULT_SECTION in q.listing.options
    requires q.section != "" && q.section in q.listing.options && q.listing.options[q.section] == init
    requires ReadsAsOption(e, separator)
    requires forall x :: x in init ==> x.option != e.option
    ensures FeedAll(q, [e.option + separator + e.value])
         == Some(Parser(q.listing.(options := q.listing.options[q.section := init + [Got(e, separator)]]), q.section, e.option))
  {
    hide Feed, ReadsAsOption;
    FeedOne(q, e.option + separator + e.value);
    FeedSetting(q, e, separator);
    AppendEntry(q.listing, q.section, init, Got(e, separator));
  }

  lemma AppendEntry(l: Listing, s: string, es: seq<Entry>, e: Entry)
    requires DEFAULT_SECTION in l.options
    requires s != "" && s in l.options && l.options[s] == es
    requires forall x :: x in es ==> x.option != e.option
    ensures AddOption(l, s, e.option, e.value) == l.(options := l.options[s := es + [e]])
  {
    DropEntryAbsent(es, e.option);
  }

  /** The sections of `order` only. */
  function Part(l: Listing, order: seq<string>): Listing
    requires forall s :: s in order ==> s in l.options
  {
    Listing(order, map s | s in order :: l.options[s])
  }

  /** The names and entries of a listing are each read as themselves, if perhaps with other values. */
  ghost predicate Readable(l: Listing, separator: string) {
    && (forall s :: s in l.options ==> NameOk(s) && ByteLength("[" + s + "]") <= MAX_LINE)
    && forall s :: s in l.options ==> forall e :: e in l.options[s] ==> ReadsAsOption(e, separator)
  }

  /** A title and its options, read in turn. */
  lemma FeedTitled(p: Parser, name: string, es: seq<Entry>, separator: string)
    requires DEFAULT_SECTION in p.listing.options && name != ""
    requires NameOk(name) && ByteLength("[" + name + "]") <= MAX_LINE
    requires name in AddSection(p.listing, name).options && AddSection(p.listing, name).options[name] == []
    requires UniqueOptions(es) && forall e :: e in es ==> ReadsAsOption(e, separator)
    ensures var q := FeedAll(p, ["", "[" + name + "]"] + EntryLines(es, separator));
      var l := AddSection(p.listing, name);
      q.Some? && q.value.listing == l.(options := l.options[name := GotAll(es, separator)])
  {
    hide ReadsAsOption, Feed, UniqueOptions;
    FeedTitle(p, name);
    FeedEntries(FeedAll(p, ["", "[" + name + "]"]).value, es, separator);
    FeedConcat(p, ["", "[" + name + "]"], EntryLines(es, separator));
  }

  lemma FeedSection(p: Parser, l: Listing, init: seq<string>, name: string, separator: string)
    requires Proper(l) && Readable(l, separator)
    requires name in l.options && name !in init && DEFAULT_SECTION in init
    requires forall s :: s in init ==> s in l.options
    requires p.listing == Part(GotListing(l, separator), init)
    ensures var q := FeedAll(p, SectionLines(name, l.options[name], separator));
      q.Some? && q.value.listing == Part(GotListing(l, separator), init + [name])
  {
    hide ReadsAsOption, Feed, UniqueOptions, GotAll;
    var es := l.options[name];
    FeedTitled(p, name, es, separator);
    PartNext(l, init, name, separator);
  }

  lemma PartNext(l: Listing, init: seq<string>, name: string, separator: string)
    requires name in l.options && name !in init && forall s :: s in init ==> s in l.options
    ensures var got := GotListing(l, separator);
      Part(got, init).options[name := []][name := GotAll(l.options[name], separator)] == Part(got, init + [name]).options
  {
    hide GotAll;
  }

  lemma PartFirst(l: Listing, name: string, separator: string)
    requires name in l.options
    ensures map[name := GotAll(l.options[name], separator)] == Part(GotListing(l, separator), [name]).options
  {
    hide GotAll;
  }

  lemma FeedDefault(p: Parser, l: Listing, separator: string)
    requires Proper(l) && Readable(l, separator)
    requires p.listing == EMPTY
    ensures var q := FeedAll(p, SectionLines(DEFAULT_SECTION, l.options[DEFAULT_SECTION], separator));
      q.Some? && q.value.listing == Part(GotListing(l, separator), [DEFAULT_SECTION])
  {
    hide ReadsAsOption, Feed, UniqueOptions;
    var name, es := DEFAULT_SECTION, l.options[DEFAULT_SECTION];
    PartFirst(l, name, separator);
    if es != [] {
      hide GotAll, Part;
      FeedTitled(p, name, es, separator);
      assert EMPTY.options[name := GotAll(es, separator)] == map[name := GotAll(es, separator)];
    } else {
      assert GotAll(es, separator) == [];
    }
  }

  /** Printed sections, read in order, rebuild the listing section by section. */
  lemma {:induction false} FeedSections(p: Parser, l: Listing, n: nat, separator: string)
    requires Proper(l) && Readable(l, separator) && 1 <= n <= |l.order|
    requires p.listing == EMPTY
    ensures var q := FeedAll(p, SectionsLines(l.order[..n], l.options, separator));
      q.Some? && q.value.listing == Part(GotListing(l, separator), l.order[..n])
  {
    hide Readable, Feed, GotListing;
    var name := l.order[n - 1];
    assert l.order[..n][..n - 1] == l.order[..n - 1];
    assert l.order[..n] == l.order[..n - 1] + [name];
    if n == 1 {
      FeedDefault(p, l, separator);
      assert SectionsLines([], l.options, separator) == [];
      assert SectionsLines(l.order[..1], l.options, separator) == SectionLines(name, l.options[name], separator);
    } else {
      FeedSections(p, l, n - 1, separator);
      var lines := SectionsLines(l.order[..n - 1], l.options, separator);
      assert l.order[..n - 1][0] == DEFAULT_SECTION;
      FeedConcat(p, lines, SectionLines(name, l.options[name], separator));
      FeedSection(FeedAll(p, lines).value, l, l.order[..n - 1], name, separator);
    }
  }

  const START := Parser(EMPTY, "", "")

  function Read(text: string): Option<Listing> {
    var p := FeedAll(START, Lines(text));
    if p.Some? then Some(p.value.listing) else None
  }

  predicate AllSingle(lines: seq<string>) {
    forall x :: x in lines ==> SingleLine(x)
  }

  lemma {:induction false} EntriesSingleLine(es: seq<Entry>, separator: string)
    requires forall e :: e in es ==> EntryOk(e, separator)
    ensures AllSingle(EntryLines(es, separator))
  {
    if es != [] {
      var e := es[|es| - 1];
      EntriesSingleLine(es[..|es| - 1], separator);
      assert EntryOk(e, separator);
    }
  }

  lemma {:induction false} SectionsSingleLine(order: seq<string>, options: map<string, seq<Entry>>, separator: string)
    requires forall s :: s in order ==> s in options && Fits("[" + s + "]")
    requires forall s :: s in order ==> forall e :: e in options[s] ==> EntryOk(e, separator)
    ensures AllSingle(SectionsLines(order, options, separator))
  {
    if order != [] {
      var init, s := order[..|order| - 1], order[|order| - 1];
      SectionsSingleLine(init, options, separator);
      EntriesSingleLine(options[s], separator);
      assert AllSingle(SectionLines(s, options[s], separator));
    }
  }

  lemma HeaderSingleLine(header: string, comment: string)
    requires IsComment(comment)
    ensures AllSingle(HeaderLines(header, comment))
  {
    if header != "" {
      var pieces := Pieces(header);
      forall x | x in HeaderLines(header, comment)
        ensures SingleLine(x)
      {
        var i :| 0 <= i < |pieces| && x == comment + pieces[i];
        assert pieces[i] in pieces;
      }
    }
  }

  lemma LinesOfPrint(l: Listing, header: string, comment: string, separator: string)
    requires Proper(l) && IsComment(comment)
    requires Savable(l, header, comment, separator)
    ensures Lines(Print(l, header, comment, separator)) == PrintedLines(l, header, comment, separator)
  {
    PrintedAsLines(l, header, comment, separator);
    HeaderSingleLine(header, comment);
    SectionsSingleLine(l.order, l.options, separator);
    LinesOfUnlines(PrintedLines(l, header, comment, separator));
  }

  lemma FeedTop(header: string, comment: string)
    requires IsComment(comment)
    requires forall s :: s in Pieces(header) ==> ByteLength(comment + s) <= MAX_LINE
    ensures FeedAll(START, HeaderLines(header, comment)) == Some(START)
  {
    if header != "" { FeedHeader(START, comment, Pieces(header)); }
  }

  lemma FeedBody(l: Listing, separator: string)
    requires Proper(l) && Readable(l, separator)
    ensures var q := FeedAll(START, SectionsLines(l.order, l.options, separator) + [""]);
      q.Some? && q.value.listing == GotListing(l, separator)
  {
    hide Feed, Readable;
    var body := SectionsLines(l.order, l.options, separator);
    FeedSections(START, l, |l.order|, separator);
    assert l.order[..|l.order|] == l.order;
    FeedConcat(START, body, [""]);
    FeedEmpty(FeedAll(START, body).value);
    PartOfWhole(l, separator);
  }

  lemma PartOfWhole(l: Listing, separator: string)
    requires Proper(l)
    ensures Part(GotListing(l, separator), l.order) == GotListing(l, separator)
  {
    assert Part(GotListing(l, separator), l.order).options == GotListing(l, separator).options;
  }

  lemma SavableIsReadable(l: Listing, header: string, comment: string, separator: string)
    requires IsSeparator(separator) && Savable(l, header, comment, separator)
    ensures Readable(l, separator) && GotListing(l, separator) == l
  {
    hide EntryOk, ReadsAsOption, Got, IsSeparator;
    forall s, e | s in l.options && e in l.options[s]
      ensures ReadsAsOption(e, separator) && Got(e, separator) == e
    {
      GoodEntryIsGot(e, separator);
    }
    forall s | s in l.options
      ensures GotAll(l.options[s], separator) == l.options[s]
    {
    }
    assert GotListing(l, separator).options == l.options;
  }

  /** What reading a printed configuration brings, when each line is read for itself. */
  lemma ReadsPrinted(l: Listing, header: string, comment: string, separator: string)
    requires Proper(l) && IsComment(comment) && Readable(l, separator)
    requires forall p :: p in Pieces(header) ==> ByteLength(comment + p) <= MAX_LINE
    requires Lines(Print(l, header, comment, separator)) == PrintedLines(l, header, comment, separator)
    ensures Read(Print(l, header, comment, separator)) == Some(GotListing(l, separator))
  {
    hide Readable, Feed;
    var top, body := HeaderLines(header, comment), SectionsLines(l.order, l.options, separator);
    assert top + body + [""] == top + (body + [""]);
    FeedTop(header, comment);
    FeedConcat(START, top, body + [""]);
    FeedBody(l, separator);
  }

  /**
   * Saving a configuration under any header, comment and separator style and reading the file
   * back gives the same sections in the same order, each with the same options in the same order.
   */
  lemma RoundTrip(l: Listing, header: string, comment: string, separator: string)
    requires Proper(l) && IsComment(comment) && IsSeparator(separator)
    requires Savable(l, header, comment, separator)
    ensures Read(Print(l, header, comment, separator)) == Some(l)
  {
    hide Readable, Print, PrintedLines, Read;
    LinesOfPrint(l, header, comment, separator);
    SavableIsReadable(l, header, comment, separator);
    ReadsPrinted(l, header, comment, separator);
  }
}
