/**
 * Exactly which configurations survive saving and reading (common/config/write.go and
 * common/config/read.go). What the reader can produce at all is tidy; a tidy configuration that
 * comes back unchanged was printed with each option on a line of its own.
 */
module ConfigExact {
  import opened Basics
  import opened ConfigText
  import opened ConfigLine
  import opened ConfigListing
  import opened ConfigFormat

  // ---------------------------------------------------------------- what lines make of a listing

  ghost predicate AllEntries(l: Listing, ok: Entry -> bool) {
    forall s :: s in l.options ==> forall e :: e in l.options[s] ==> ok(e)
  }

  ghost predicate AllNames(l: Listing, named: string -> bool) {
    forall s :: s in l.options ==> named(s)
  }

  /** A line that brings good names and good entries only. */
  ghost predicate LineOk(line: Line, ok: Entry -> bool, named: string -> bool) {
    match line
    case Header(name) => named(name)
    case Setting(option, value) => ok(Entry(option, value))
    case Indented(text) => forall e: Entry :: ok(e) ==> ok(Entry(e.option, e.value + "\n" + text))
    case _ => true
  }

  /** The parser's section exists and holds its option. */
  ghost predicate Current(p: Parser) {
    && DEFAULT_SECTION in p.listing.options
    && (p.section == "" || p.section in p.listing.options)
    && (p.section != "" && p.option != "" ==> Find(p.listing.options[p.section], p.option).Some?)
  }

  lemma {:induction false} DroppedFrom(es: seq<Entry>, option: string)
    ensures forall e :: e in DropEntry(es, option) ==> e in es
    ensures |DropEntry(es, option)| <= |es|
  {
    if es != [] { DroppedFrom(es[..|es| - 1], option); }
  }

  lemma {:induction false} FoundIn(es: seq<Entry>, option: string)
    ensures Find(es, option).Some? ==> Entry(option, Find(es, option).value) in es
  {
    if es != [] && es[|es| - 1].option != option { FoundIn(es[..|es| - 1], option); }
  }

  lemma AddKeeps(l: Listing, section: string, e: Entry, ok: Entry -> bool, named: string -> bool)
    requires DEFAULT_SECTION in l.options && (section == "" || section in l.options)
    requires AllEntries(l, ok) && AllNames(l, named) && ok(e)
    ensures var l' := AddOption(l, section, e.option, e.value);
      && AllEntries(l', ok) && AllNames(l', named) && l'.options.Keys == l.options.Keys
      && (section != "" ==> Find(l'.options[section], e.option).Some?)
  {
    var s := Resolve(section);
    DroppedFrom(l.options[s], e.option);
  }

  lemma ObeyKeeps(p: Parser, line: Line, ok: Entry -> bool, named: string -> bool)
    requires Current(p) && AllEntries(p.listing, ok) && AllNames(p.listing, named) && LineOk(line, ok, named)
    ensures var q := Obey(p, line);
      q.Some? ==> Current(q.value) && AllEntries(q.value.listing, ok) && AllNames(q.value.listing, named)
  {
    hide AddOption, Find;
    match line
    case Indented(text) =>
      if p.section != "" && p.option != "" {
        FoundIn(p.listing.options[p.section], p.option);
        var prev := Find(p.listing.options[p.section], p.option).value;
        assert ok(Entry(p.option, prev));
        AddKeeps(p.listing, p.section, Entry(p.option, prev + "\n" + text), ok, named);
      }
    case Setting(option, value) => AddKeeps(p.listing, p.section, Entry(option, value), ok, named);
    case _ =>
  }

  lemma {:induction false} FeedAllKeeps(p: Parser, lines: seq<string>, ok: Entry -> bool, named: string -> bool)
    requires Current(p) && AllEntries(p.listing, ok) && AllNames(p.listing, named)
    requires forall x :: x in lines ==> LineOk(Classify(DropCR(x)), ok, named)
    requires FeedAll(p, lines).Some?
    ensures AllEntries(FeedAll(p, lines).value.listing, ok) && AllNames(FeedAll(p, lines).value.listing, named)
    ensures forall x :: x in lines ==> ByteLength(x) <= MAX_LINE
    decreases |lines|
  {
    hide Classify, DropCR, LineOk, AllEntries, AllNames, Obey;
    if lines != [] {
      assert lines[0] in lines;
      ObeyKeeps(p, Classify(DropCR(lines[0])), ok, named);
      FeedAllKeeps(Feed(p, lines[0]).value, lines[1..], ok, named);
      assert lines == [lines[0]] + lines[1..];
    }
  }

  /** Whatever holds of the names and entries that the lines of a text bring holds of the listing. */
  lemma ReadKeeps(text: string, ok: Entry -> bool, named: string -> bool)
    requires Read(text).Some? && named(DEFAULT_SECTION)
    requires forall x :: x in Lines(text) ==> LineOk(Classify(DropCR(x)), ok, named)
    ensures AllEntries(Read(text).value, ok) && AllNames(Read(text).value, named)
    ensures forall x :: x in Lines(text) ==> ByteLength(x) <= MAX_LINE
  {
    FeedAllKeeps(START, Lines(text), ok, named);
  }

  // ---------------------------------------------------------------- whatever is read is tidy

  /** After each line break comes a character that is not white space. */
  predicate Tidy(s: string) {
    forall i :: 0 <= i < |s| && s[i] == '\n' ==> i + 1 < |s| && !IsSpace(s[i + 1])
  }

  predicate NoMarks(s: string) {
    forall i :: 0 <= i < |s| ==> !IsMark(s[i])
  }

  predicate TidyEntry(e: Entry) {
    Trimmed(e.option) && NoMarks(e.option) && SingleLine(e.option) && Tidy(e.value)
  }

  predicate TidyName(s: string) { NameOk(s) && SingleLine(s) }

  lemma TrimIsPart(s: string) returns (i: nat)
    ensures i + |TrimSpace(s)| <= |s| && TrimSpace(s) == s[i..i + |TrimSpace(s)|]
    ensures TrimSpace(s) == "" <==> AllSpace(s)
  {
    i := TrimLeftSpec(s);
    TrimRightSpec(TrimLeft(s));
  }

  lemma CleanIsSingle(raw: string)
    requires SingleLine(raw)
    ensures SingleLine(Clean(DropCR(raw))) && Clean(DropCR(raw)) <= raw && NoComment(Clean(DropCR(raw)))
    ensures var l := Clean(DropCR(raw)); l != "" ==> !IsSpace(l[|l| - 1])
  {
    var line := DropCR(raw);
    TrimRightSpec(Uncommented(line));
    assert Clean(line) <= Uncommented(line) <= line <= raw;
    var l := Clean(line);
    forall k | 0 <= k < |l| ensures !CommentAt(l, k) {
      assert !CommentAt(line, k);
    }
  }

  /** The name between brackets is tidy. */
  lemma HeaderIsTidy(l: string)
    requires SingleLine(l) && NoComment(l) && |l| >= 2
    ensures TidyName(TrimSpace(l[1..|l| - 1]))
  {
    var inner := l[1..|l| - 1];
    var name := TrimSpace(inner);
    var i := TrimIsPart(inner);
    TrimSpaceIsTrimmed(inner);
    var line := "[" + name + "]";
    forall k | 0 <= k < |line| ensures !CommentAt(line, k) {
      if 1 <= k && k + 1 < |line| - 1 {
        assert line[k] == name[k - 1] == l[i + k] && line[k + 1] == name[k] == l[i + k + 1];
        assert !CommentAt(l, i + k);
      }
    }
    assert forall k :: 0 <= k < |name| ==> name[k] == l[i + k + 1];
  }

  lemma SettingIsTidy(l: string)
    requires SingleLine(l) && Understand(l).Setting?
    ensures TidyEntry(Entry(Understand(l).option, Understand(l).value))
    ensures SingleLine(Understand(l).value)
  {
    var k := SplitOfSetting(l, Understand(l).option, Understand(l).value);
    var i := TrimIsPart(l[..k]);
    var j := TrimIsPart(l[k + 1..]);
  }

  lemma IndentedIsTidy(l: string, e: Entry)
    requires SingleLine(l) && Understand(l).Indented? && !IsSpace(l[|l| - 1]) && TidyEntry(e)
    ensures TidyEntry(Entry(e.option, e.value + "\n" + Understand(l).text))
  {
    var text := Understand(l).text;
    var i := TrimIsPart(l);
    TrimSpaceIsTrimmed(l);
    assert text != "";
    var v := e.value + "\n" + text;
    forall k | 0 <= k < |v| ensures v[k] == '\n' ==> k + 1 < |v| && !IsSpace(v[k + 1]) {
      if k < |e.value| {
        assert v[k] == e.value[k] && (k + 1 < |e.value| ==> v[k + 1] == e.value[k + 1]);
      } else if k > |e.value| {
        assert v[k] == text[k - |e.value| - 1];
      }
    }
  }

  lemma LineIsTidy(raw: string)
    requires SingleLine(raw)
    ensures LineOk(Classify(DropCR(raw)), TidyEntry, TidyName)
  {
    hide TidyEntry, TidyName, Clean, IsSpace;
    CleanIsSingle(raw);
    var l := Clean(DropCR(raw));
    match Understand(l)
    case Header(_) => HeaderIsTidy(l);
    case Setting(_, _) => SettingIsTidy(l);
    case Indented(text) =>
      forall e: Entry | TidyEntry(e) ensures TidyEntry(Entry(e.option, e.value + "\n" + text)) {
        IndentedIsTidy(l, e);
      }
    case _ =>
  }

  lemma {:induction false} LinesAreSingle(text: string)
    ensures forall x :: x in Lines(text) ==> SingleLine(x)
  {
    if text != "" {
      var k := NewlineAt(text);
      if k < |text| { LinesAreSingle(text[k + 1..]); }
    }
  }

  lemma ReadIsTidy(text: string)
    requires Read(text).Some?
    ensures AllEntries(Read(text).value, TidyEntry) && AllNames(Read(text).value, TidyName)
  {
    hide LineOk, TidyEntry, TidyName, Read, Classify, DropCR;
    LinesAreSingle(text);
    forall x | x in Lines(text) ensures LineOk(Classify(DropCR(x)), TidyEntry, TidyName) {
      LineIsTidy(x);
    }
    DefaultIsTidy();
    ReadKeeps(text, TidyEntry, TidyName);
  }

  lemma DefaultIsTidy()
    ensures TidyName(DEFAULT_SECTION)
  {
  }

  // ---------------------------------------------------------------- the lines of a printed listing

  /** The line does not begin with white space. */
  predicate Outset(x: string) { x == "" || !IsSpace(x[0]) }

  lemma OutsetLine(x: string)
    requires Outset(x)
    ensures !Classify(DropCR(x)).Indented?
    ensures Classify(DropCR(x)).Setting? ==> Classify(DropCR(x)).option != ""
  {
    var l := Clean(DropCR(x));
    CleanIsPrefix(DropCR(x));
    if Understand(l).Setting? {
      var i := SplitOfSetting(l, Understand(l).option, Understand(l).value);
      var j := TrimIsPart(l[..i]);
      assert !IsSpace(l[..i][0]);
    }
  }

  lemma SeparatorLine(separator: string, rest: string)
    requires IsSeparator(separator)
    ensures !Classify(DropCR(separator + rest)).Setting?
  {
    var mark, pre, post :| IsMark(mark) && separator == Separator(mark, pre, post);
    var x := DropCR(separator + rest);
    var l := Clean(x);
    CleanIsPrefix(x);
    if l != "" {
      assert l[0] == (separator + rest)[0];
      assert l[0] == ' ' || l[0] == mark;
    }
  }

  /** Of the pieces of a tidy text only the first can begin with white space. */
  lemma {:induction false} PiecesOf(x: string)
    ensures Pieces(x)[0] == x[..NewlineAt(x)]
    ensures Tidy(x) ==> forall i :: 1 <= i < |Pieces(x)| ==> Outset(Pieces(x)[i])
    decreases |x|
  {
    var k := NewlineAt(x);
    if k < |x| && Tidy(x) {
      var rest := x[k + 1..];
      PiecesOf(rest);
      assert x[k + 1] == rest[0];
      forall i | 0 <= i < |rest| && rest[i] == '\n' ensures i + 1 < |rest| && !IsSpace(rest[i + 1]) {
        assert x[i + k + 1] == '\n';
      }
      forall i | 1 <= i < |Pieces(x)| ensures Outset(Pieces(x)[i]) {
        assert Pieces(x)[i] == Pieces(rest)[i - 1];
      }
    }
  }

  lemma SinglePiece(x: string)
    requires SingleLine(x)
    ensures Pieces(x) == [x]
  {
    assert NewlineAt(x) == |x|;
    LastPiece(x);
  }

  lemma LastPiece(x: string)
    requires NewlineAt(x) == |x|
    ensures Pieces(x) == [x] && SingleLine(x)
  {
    hide NewlineAt, SingleLine;
    assert x[..|x|] == x;
    assert [x] + [] == [x];
  }

  lemma FirstPiece(x: string, k: nat)
    requires k == NewlineAt(x) < |x|
    ensures Pieces(x) == [x[..k]] + Pieces(x[k + 1..])
    ensures SingleLine(x[..k]) && x == x[..k] + "\n" + x[k + 1..]
  {
    hide NewlineAt, SingleLine;
  }

  lemma {:induction false} LinesOfPieces(x: string, rest: string)
    ensures Lines(x + "\n" + rest) == Pieces(x) + Lines(rest)
    decreases |x|
  {
    hide Lines, Pieces, NewlineAt, SingleLine;
    var k := NewlineAt(x);
    var first := x[..k];
    if k < |x| {
      FirstPiece(x, k);
      var more := x[k + 1..];
      LinesOfPieces(more, rest);
      Reassociate(first, more, rest);
      LinesOfFirst(first, more + "\n" + rest);
    } else {
      LastPiece(x);
      LinesOfFirst(x, rest);
    }
  }

  lemma Reassociate(a: string, b: string, c: string)
    ensures (a + "\n" + b) + "\n" + c == a + "\n" + (b + "\n" + c)
  {
  }

  lemma {:induction false} LineOfUnlines(xs: seq<string>, y: string) returns (x: string)
    requires y in Lines(Unlines(xs))
    ensures x in xs && y in Pieces(x)
  {
    LinesOfPieces(xs[0], Unlines(xs[1..]));
    if y in Pieces(xs[0]) {
      x := xs[0];
    } else {
      x := LineOfUnlines(xs[1..], y);
    }
  }

  ghost predicate IsEntryLine(es: seq<Entry>, separator: string, x: string) {
    exists e :: e in es && x == e.option + separator + e.value
  }

  lemma {:induction false} EntryLinesAre(es: seq<Entry>, separator: string, x: string)
    requires x in EntryLines(es, separator)
    ensures IsEntryLine(es, separator, x)
  {
    var last := |es| - 1;
    if x != es[last].option + separator + es[last].value { EntryLinesAre(es[..last], separator, x); }
  }

  ghost predicate IsSectionsLine(order: seq<string>, options: map<string, seq<Entry>>, separator: string, x: string)
    requires forall s :: s in order ==> s in options
  {
    || x == ""
    || (exists s :: s in order && x == "[" + s + "]")
    || exists s :: s in order && IsEntryLine(options[s], separator, x)
  }

  lemma {:induction false} SectionsLinesAre(order: seq<string>, options: map<string, seq<Entry>>, separator: string, x: string)
    requires forall s :: s in order ==> s in options
    requires x in SectionsLines(order, options, separator)
    ensures IsSectionsLine(order, options, separator, x)
  {
    var init, s := order[..|order| - 1], order[|order| - 1];
    if x in SectionsLines(init, options, separator) {
      SectionsLinesAre(init, options, separator, x);
    } else if x in EntryLines(options[s], separator) {
      EntryLinesAre(options[s], separator, x);
    }
  }

  /** A separator at the very beginning of a line stands for an option without a name. */
  ghost predicate NamelessLine(l: Listing, separator: string, y: string) {
    separator <= y && exists s, e :: s in l.options && e in l.options[s] && e.option == ""
  }

  lemma EntryPiece(e: Entry, separator: string, y: string)
    requires IsSeparator(separator) && TidyEntry(e) && y in Pieces(e.option + separator + e.value)
    ensures Outset(y) || (e.option == "" && separator <= y)
  {
    hide Pieces, Outset, Tidy, NoMarks;
    SeparatorIsSingle(separator);
    var head := e.option + separator;
    TidyText(head, e.value, y);
    assert e.option == "" ==> head == separator;
    if e.option != "" && head <= y { OutsetHead(e.option, separator, y); }
  }

  lemma OutsetHead(option: string, separator: string, y: string)
    requires option != "" && Trimmed(option) && option + separator <= y
    ensures Outset(y)
  {
    assert y[0] == (option + separator)[0] == option[0];
  }

  lemma SeparatorIsSingle(separator: string)
    requires IsSeparator(separator)
    ensures SingleLine(separator)
  {
  }

  /** A piece of a text that begins on one line, and is tidy afterwards. */
  lemma TidyText(head: string, rest: string, y: string)
    requires SingleLine(head) && Tidy(rest) && y in Pieces(head + rest)
    ensures head <= y || Outset(y)
  {
    hide Pieces;
    var x := head + rest;
    forall k | 0 <= k < |x| ensures x[k] == '\n' ==> k + 1 < |x| && !IsSpace(x[k + 1]) {
      if k >= |head| { assert x[k] == rest[k - |head|]; }
    }
    PiecesOf(x);
    var i :| 0 <= i < |Pieces(x)| && Pieces(x)[i] == y;
    if i == 0 {
      assert NewlineAt(x) >= |head|;
      assert head <= x[..NewlineAt(x)];
    }
  }

  lemma PrintedLine(l: Listing, header: string, comment: string, separator: string, y: string)
    requires Proper(l) && IsComment(comment) && IsSeparator(separator)
    requires AllEntries(l, TidyEntry) && AllNames(l, TidyName)
    requires y in Lines(Print(l, header, comment, separator))
    ensures Outset(y) || NamelessLine(l, separator, y)
  {
    hide TidyEntry, IsComment, IsSeparator, Pieces, HeaderLines, Print, Outset;
    PrintedAsLines(l, header, comment, separator);
    var x := LineOfUnlines(PrintedLines(l, header, comment, separator), y);
    if x in HeaderLines(header, comment) {
      HeaderPiece(header, comment, x, y);
    } else if x == "" {
      EmptyPiece(y);
    } else {
      SectionsLinesAre(l.order, l.options, separator, x);
      if s :| s in l.order && x == "[" + s + "]" {
        TitlePiece(s, y);
      } else {
        var s :| s in l.order && IsEntryLine(l.options[s], separator, x);
        var e :| e in l.options[s] && x == e.option + separator + e.value;
        EntryPiece(e, separator, y);
      }
    }
  }

  lemma EmptyPiece(y: string)
    requires y in Pieces("")
    ensures Outset(y)
  {
  }

  lemma TitlePiece(s: string, y: string)
    requires TidyName(s) && y in Pieces("[" + s + "]")
    ensures Outset(y)
  {
    SinglePiece("[" + s + "]");
  }

  lemma HeaderPiece(header: string, comment: string, x: string, y: string)
    requires IsComment(comment) && x in HeaderLines(header, comment) && y in Pieces(x)
    ensures Outset(y)
  {
    HeaderSingleLine(header, comment);
    SinglePiece(x);
    var i :| 0 <= i < |Pieces(header)| && x == comment + Pieces(header)[i];
    assert x[0] == comment[0];
  }

  // ---------------------------------------------------------------- what comes back is single-line

  predicate Named(e: Entry) { e.option != "" }

  predicate SingleValue(e: Entry) { SingleLine(e.value) }

  predicate AnyName(s: string) { true }

  lemma LineNames(l: Listing, separator: string, y: string)
    requires IsSeparator(separator) && (Outset(y) || NamelessLine(l, separator, y))
    ensures LineOk(Classify(DropCR(y)), Named, AnyName)
  {
    hide Classify, DropCR, IsSeparator;
    if Outset(y) {
      OutsetLine(y);
    } else {
      SeparatorLine(separator, y[|separator|..]);
      assert separator + y[|separator|..] == y;
    }
  }

  /** Every option that comes back has a name, and no value has a line break. */
  lemma ComesBackSingle(l: Listing, header: string, comment: string, separator: string)
    requires Proper(l) && IsComment(comment) && IsSeparator(separator)
    requires Read(Print(l, header, comment, separator)) == Some(l)
    ensures AllEntries(l, TidyEntry) && AllNames(l, TidyName)
    ensures AllEntries(l, Named) && AllEntries(l, SingleValue)
    ensures forall x :: x in Lines(Print(l, header, comment, separator)) ==> ByteLength(x) <= MAX_LINE && Outset(x)
  {
    hide Classify, DropCR, LineOk, TidyEntry, TidyName, IsComment, IsSeparator, Read, Print, Lines, Outset;
    var text := Print(l, header, comment, separator);
    ReadIsTidy(text);
    forall y | y in Lines(text)
      ensures LineOk(Classify(DropCR(y)), Named, AnyName) && (Outset(y) || NamelessLine(l, separator, y))
    {
      PrintedLine(l, header, comment, separator, y);
      LineNames(l, separator, y);
    }
    ReadKeeps(text, Named, AnyName);
    AllNamed(l);
    forall y | y in Lines(text)
      ensures LineOk(Classify(DropCR(y)), SingleValue, AnyName)
    {
      LinesAreSingle(text);
      OutsetIsSingle(y);
    }
    ReadKeeps(text, SingleValue, AnyName);
  }

  lemma AllNamed(l: Listing)
    requires AllEntries(l, Named)
    ensures forall s, e :: s in l.options && e in l.options[s] ==> e.option != ""
  {
  }

  lemma OutsetIsSingle(y: string)
    requires Outset(y) && SingleLine(y)
    ensures LineOk(Classify(DropCR(y)), SingleValue, AnyName)
  {
    OutsetLine(y);
    CleanIsSingle(y);
    var l := Clean(DropCR(y));
    if Understand(l).Setting? { SettingIsTidy(l); }
  }

  // ---------------------------------------------------------------- every option needs its own line

  /** The number of lines read as settings. */
  function Settings(lines: seq<string>): nat {
    if lines == [] then 0
    else Settings(lines[..|lines| - 1]) + (if Classify(DropCR(lines[|lines| - 1])).Setting? then 1 else 0)
  }

  /** The number of options. */
  function Total(order: seq<string>, options: map<string, seq<Entry>>): nat
    requires forall s :: s in order ==> s in options
  {
    if order == [] then 0
    else Total(order[..|order| - 1], options) + |options[order[|order| - 1]]|
  }

  ghost predicate Ordered(l: Listing) {
    Distinct(l.order) && forall s :: s in l.order <==> s in l.options
  }

  lemma {:induction false} SettingsSplit(a: seq<string>, b: seq<string>)
    ensures Settings(a + b) == Settings(a) + Settings(b)
  {
    hide Classify, DropCR;
    if b == [] {
      assert a + b == a;
    } else {
      SettingsSplit(a, b[..|b| - 1]);
      assert (a + b)[..|a + b| - 1] == a + b[..|b| - 1];
    }
  }

  lemma {:induction false} NoSettings(lines: seq<string>)
    requires forall x :: x in lines ==> !Classify(DropCR(x)).Setting?
    ensures Settings(lines) == 0
  {
    hide Classify, DropCR;
    if lines != [] { NoSettings(lines[..|lines| - 1]); }
  }

  lemma {:induction false} TotalSame(order: seq<string>, a: map<string, seq<Entry>>, b: map<string, seq<Entry>>)
    requires forall s :: s in order ==> s in a && s in b && |a[s]| == |b[s]|
    ensures Total(order, a) == Total(order, b)
  {
    if order != [] { TotalSame(order[..|order| - 1], a, b); }
  }

  lemma {:induction false} TotalGrows(order: seq<string>, options: map<string, seq<Entry>>, s: string, es: seq<Entry>)
    requires Distinct(order) && s in order && forall x :: x in order ==> x in options
    requires |es| <= |options[s]| + 1
    ensures Total(order, options[s := es]) <= Total(order, options) + 1
  {
    var init, last := order[..|order| - 1], order[|order| - 1];
    if last == s {
      TotalSame(init, options[s := es], options);
    } else {
      TotalGrows(init, options, s, es);
    }
  }

  lemma ObeyCounts(p: Parser, line: Line)
    requires Current(p) && Ordered(p.listing) && !line.Indented?
    ensures var q := Obey(p, line);
      q.Some? ==>
        && Current(q.value) && Ordered(q.value.listing)
        && Total(q.value.listing.order, q.value.listing.options)
           <= Total(p.listing.order, p.listing.options) + (if line.Setting? then 1 else 0)
  {
    hide Find;
    ObeyKeeps(p, line, e => true, s => true);
    var l := p.listing;
    match line
    case Header(name) =>
      if name != "" && name !in l.options {
        TotalSame(l.order, l.options[name := []], l.options);
        assert (l.order + [name])[..|l.order|] == l.order;
      }
    case Setting(option, value) =>
      var s := Resolve(p.section);
      DroppedFrom(l.options[s], option);
      TotalGrows(l.order, l.options, s, DropEntry(l.options[s], option) + [Entry(option, value)]);
    case _ =>
  }

  lemma {:induction false} FeedAllCounts(p: Parser, lines: seq<string>)
    requires Current(p) && Ordered(p.listing) && FeedAll(p, lines).Some?
    requires forall x :: x in lines ==> !Classify(DropCR(x)).Indented?
    ensures var q := FeedAll(p, lines).value;
      && Ordered(q.listing)
      && Total(q.listing.order, q.listing.options) <= Total(p.listing.order, p.listing.options) + Settings(lines)
    decreases |lines|
  {
    hide Classify, DropCR, Obey, Current, Ordered;
    if lines != [] {
      CurrentHasDefault(p);
      assert lines[0] in lines;
      ObeyCounts(p, Classify(DropCR(lines[0])));
      FeedAllCounts(Feed(p, lines[0]).value, lines[1..]);
      SettingsSplit([lines[0]], lines[1..]);
      assert [lines[0]] + lines[1..] == lines;
    }
  }

  lemma CurrentHasDefault(p: Parser)
    requires Current(p)
    ensures DEFAULT_SECTION in p.listing.options
  {
  }

  /** A printed entry is read as a setting. */
  predicate IsSetting(e: Entry, separator: string) {
    Classify(DropCR(e.option + separator + e.value)).Setting?
  }

  lemma {:induction false} EntrySettings(es: seq<Entry>, separator: string)
    ensures Settings(EntryLines(es, separator)) <= |es|
    ensures Settings(EntryLines(es, separator)) == |es| ==> forall e :: e in es ==> IsSetting(e, separator)
  {
    hide Classify, DropCR;
    if es != [] {
      var init, e := es[..|es| - 1], es[|es| - 1];
      EntrySettings(init, separator);
      var x := e.option + separator + e.value;
      SettingsSplit(EntryLines(init, separator), [x]);
      assert es == init + [e];
    }
  }

  lemma TitleIsNoSetting(s: string)
    requires TidyName(s)
    ensures Settings(["", "[" + s + "]"]) == 0
  {
    var x := "[" + s + "]";
    HeaderRoundTrip(s);
    EmptyLineIsBlank();
    assert DropCR(x) == x;
    NoSettings(["", x]);
  }

  lemma SectionSettings(name: string, es: seq<Entry>, separator: string)
    requires TidyName(name)
    ensures var n := Settings(SectionLines(name, es, separator));
      n <= |es| && (n == |es| ==> forall e :: e in es ==> IsSetting(e, separator))
  {
    hide Classify, DropCR, TidyName, IsSetting;
    EntrySettings(es, separator);
    TitleIsNoSetting(name);
    SettingsSplit(["", "[" + name + "]"], EntryLines(es, separator));
  }

  lemma {:induction false} SectionsSettings(order: seq<string>, options: map<string, seq<Entry>>, separator: string)
    requires forall s :: s in order ==> s in options && TidyName(s)
    ensures var n := Settings(SectionsLines(order, options, separator));
      && n <= Total(order, options)
      && (n == Total(order, options) ==> forall s :: s in order ==> forall e :: e in options[s] ==> IsSetting(e, separator))
  {
    hide TidyName, IsSetting, Settings, SectionLines;
    if order == [] {
      NoSettings([]);
    } else {
      var init, s := order[..|order| - 1], order[|order| - 1];
      SectionsSettings(init, options, separator);
      SectionSettings(s, options[s], separator);
      SettingsSplit(SectionsLines(init, options, separator), SectionLines(s, options[s], separator));
      assert order == init + [s];
    }
  }

  lemma HeaderSettings(header: string, comment: string)
    requires IsComment(comment)
    ensures Settings(HeaderLines(header, comment)) == 0
  {
    forall x | x in HeaderLines(header, comment)
      ensures !Classify(DropCR(x)).Setting?
    {
      var i :| 0 <= i < |Pieces(header)| && x == comment + Pieces(header)[i];
      CommentLineIsBlank(DropCR(x));
    }
    NoSettings(HeaderLines(header, comment));
  }

  lemma PrintedSettings(l: Listing, header: string, comment: string, separator: string)
    requires Proper(l) && IsComment(comment) && AllNames(l, TidyName)
    ensures var n := Settings(PrintedLines(l, header, comment, separator));
      n == Total(l.order, l.options) ==> forall s :: s in l.options ==> forall e :: e in l.options[s] ==> IsSetting(e, separator)
    ensures Settings(PrintedLines(l, header, comment, separator)) <= Total(l.order, l.options)
  {
    hide TidyName, IsSetting, IsComment, Settings;
    var top, body := HeaderLines(header, comment), SectionsLines(l.order, l.options, separator);
    HeaderSettings(header, comment);
    SectionsSettings(l.order, l.options, separator);
    SettingsSplit(top + body, [""]);
    SettingsSplit(top, body);
    EmptyIsNoSetting();
  }

  lemma EmptyIsNoSetting()
    ensures Settings([""]) == 0
  {
    EmptyLineIsBlank();
  }

  // ---------------------------------------------------------------- so each line is read as its own option

  lemma {:induction false} EntriesAreSingle(es: seq<Entry>, separator: string)
    requires SingleLine(separator)
    requires forall e :: e in es ==> TidyEntry(e) && SingleValue(e)
    ensures AllSingle(EntryLines(es, separator))
  {
    if es != [] {
      EntriesAreSingle(es[..|es| - 1], separator);
      var e := es[|es| - 1];
      assert e in es;
      assert SingleLine(e.option + separator + e.value);
    }
  }

  lemma {:induction false} SectionsAreSingle(order: seq<string>, options: map<string, seq<Entry>>, separator: string)
    requires SingleLine(separator)
    requires forall s :: s in order ==> s in options && TidyName(s)
    requires forall s :: s in order ==> forall e :: e in options[s] ==> TidyEntry(e) && SingleValue(e)
    ensures AllSingle(SectionsLines(order, options, separator))
  {
    hide TidyEntry, SingleValue, NameOk;
    if order != [] {
      var init, s := order[..|order| - 1], order[|order| - 1];
      SectionsAreSingle(init, options, separator);
      EntriesAreSingle(options[s], separator);
      assert SingleLine("[" + s + "]");
    }
  }

  lemma LinesArePrinted(l: Listing, header: string, comment: string, separator: string)
    requires Proper(l) && IsComment(comment) && IsSeparator(separator)
    requires AllEntries(l, TidyEntry) && AllNames(l, TidyName) && AllEntries(l, SingleValue)
    ensures Lines(Print(l, header, comment, separator)) == PrintedLines(l, header, comment, separator)
  {
    hide TidyEntry, SingleValue, TidyName, Lines, Print;
    SeparatorIsSingle(separator);
    PrintedAsLines(l, header, comment, separator);
    HeaderSingleLine(header, comment);
    SectionsAreSingle(l.order, l.options, separator);
    LinesOfUnlines(PrintedLines(l, header, comment, separator));
  }

  /** A setting read from the line of a tidy entry is one of its own option. */
  lemma SettingOfOwn(e: Entry, separator: string)
    requires IsSeparator(separator) && TidyEntry(e) && IsSetting(e, separator)
    ensures Classify(DropCR(e.option + separator + e.value)).option == e.option
  {
    hide NoMarks;
    var mark, pre, post :| IsMark(mark) && separator == Separator(mark, pre, post);
    var line := e.option + separator + e.value;
    var l := Clean(DropCR(line));
    CleanIsPrefix(DropCR(line));
    FirstMarkOfPrinted(e, mark, pre, post, l);
    TrimBefore(e.option, pre);
  }

  lemma FirstMarkOfPrinted(e: Entry, mark: char, pre: bool, post: bool, l: string)
    requires IsMark(mark) && NoMarks(e.option)
    requires l <= e.option + Separator(mark, pre, post) + e.value && Understand(l).Setting?
    ensures Understand(l).option == TrimSpace(e.option + Spaces(pre))
  {
    hide Separator, Spaces, TrimSpace;
    var line := e.option + Separator(mark, pre, post) + e.value;
    var at := |e.option| + |Spaces(pre)|;
    MarkOfPrinted(e.option, e.value, mark, pre, post);
    var i := SplitOfSetting(l, Understand(l).option, Understand(l).value);
    assert l[i] == line[i];
    assert i >= at;
    assert at < |l| ==> l[at] == line[at];
    assert l[..i] == line[..at];
    PrintedHead(e, mark, pre, post);
  }

  lemma PrintedHead(e: Entry, mark: char, pre: bool, post: bool)
    ensures var line := e.option + Separator(mark, pre, post) + e.value;
      |e.option| + |Spaces(pre)| <= |line| && line[..|e.option| + |Spaces(pre)|] == e.option + Spaces(pre)
  {
  }

  lemma {:induction false} EntryLineIsPrinted(es: seq<Entry>, separator: string, e: Entry)
    requires e in es
    ensures e.option + separator + e.value in EntryLines(es, separator)
  {
    if e != es[|es| - 1] { EntryLineIsPrinted(es[..|es| - 1], separator, e); }
  }

  lemma {:induction false} SectionIsPrinted(order: seq<string>, options: map<string, seq<Entry>>, separator: string, s: string)
    requires (forall x :: x in order ==> x in options) && s in order
    ensures forall x :: x in SectionLines(s, options[s], separator) ==> x in SectionsLines(order, options, separator)
  {
    hide SectionLines;
    if s != order[|order| - 1] { SectionIsPrinted(order[..|order| - 1], options, separator, s); }
  }

  lemma LinesFit(l: Listing, header: string, comment: string, separator: string)
    requires Proper(l) && IsComment(comment)
    requires forall x :: x in PrintedLines(l, header, comment, separator) ==> ByteLength(x) <= MAX_LINE
    ensures forall p :: p in Pieces(header) ==> ByteLength(comment + p) <= MAX_LINE
    ensures forall s :: s in l.options ==> ByteLength("[" + s + "]") <= MAX_LINE
    ensures forall s, e :: s in l.options && e in l.options[s] ==> ByteLength(e.option + separator + e.value) <= MAX_LINE
  {
    hide ByteLength, SectionsLines, Pieces;
    forall s | s in l.options
      ensures ByteLength("[" + s + "]") <= MAX_LINE
      ensures forall e :: e in l.options[s] ==> ByteLength(e.option + separator + e.value) <= MAX_LINE
    {
      SectionIsPrinted(l.order, l.options, separator, s);
      SectionFits(s, l.options[s], separator);
    }
    HeaderFits(header, comment);
  }

  lemma SectionFits(s: string, es: seq<Entry>, separator: string)
    requires forall x :: x in SectionLines(s, es, separator) ==> ByteLength(x) <= MAX_LINE
    ensures ByteLength("[" + s + "]") <= MAX_LINE
    ensures forall e :: e in es ==> ByteLength(e.option + separator + e.value) <= MAX_LINE
  {
    if s == DEFAULT_SECTION && es == [] {
      DefaultFits();
    } else {
      hide ByteLength, EntryLines;
      assert ["", "[" + s + "]"][1] in SectionLines(s, es, separator);
      forall e | e in es ensures ByteLength(e.option + separator + e.value) <= MAX_LINE {
        EntryLineIsPrinted(es, separator, e);
      }
    }
  }

  lemma {:induction false} ShortFits(s: string)
    ensures ByteLength(s) <= 4 * |s|
  {
    if s != "" { ShortFits(s[..|s| - 1]); }
  }

  lemma DefaultFits()
    ensures ByteLength("[" + DEFAULT_SECTION + "]") <= MAX_LINE
  {
    ShortFits("[" + DEFAULT_SECTION + "]");
    assert |DEFAULT_SECTION| == 7;
  }

  lemma HeaderFits(header: string, comment: string)
    requires IsComment(comment)
    requires forall x :: x in HeaderLines(header, comment) ==> ByteLength(x) <= MAX_LINE
    ensures forall p :: p in Pieces(header) ==> ByteLength(comment + p) <= MAX_LINE
  {
    hide ByteLength;
    if header == "" {
      LastPiece(header);
      ShortFits(comment + "");
    } else {
      forall i | 0 <= i < |Pieces(header)| ensures ByteLength(comment + Pieces(header)[i]) <= MAX_LINE {
        assert HeaderLines(header, comment)[i] == comment + Pieces(header)[i];
      }
    }
  }

  /** An entry that is got back is a good one. */
  lemma GotIsGood(e: Entry, separator: string)
    requires IsSeparator(separator) && TidyEntry(e) && SingleValue(e)
    requires ReadsAsOption(e, separator) && Got(e, separator) == e
    ensures EntryOk(e, separator)
  {
    hide Classify;
    var mark, pre, post :| IsMark(mark) && separator == Separator(mark, pre, post);
    var line := e.option + separator + e.value;
    assert Classify(DropCR(line)) == Setting(e.option, e.value);
    ReadValueIsTrimmed(DropCR(line), e.option, e.value);
    SettingRoundTrip(e.option, e.value, mark, pre, post);
  }

  lemma ReadValueIsTrimmed(x: string, option: string, value: string)
    requires Classify(x) == Setting(option, value)
    ensures Trimmed(value)
  {
    var i := SplitOfSetting(Clean(x), option, value);
  }

  /** Every printed entry of a configuration that comes back is read as a setting. */
  lemma ComesBackAsSettings(l: Listing, header: string, comment: string, separator: string)
    requires Proper(l) && IsComment(comment) && IsSeparator(separator)
    requires Read(Print(l, header, comment, separator)) == Some(l)
    requires AllNames(l, TidyName)
    requires Lines(Print(l, header, comment, separator)) == PrintedLines(l, header, comment, separator)
    requires forall x :: x in Lines(Print(l, header, comment, separator)) ==> Outset(x)
    ensures forall s :: s in l.options ==> forall e :: e in l.options[s] ==> IsSetting(e, separator)
  {
    hide Classify, DropCR, Print, PrintedLines, IsSetting, Outset, IsComment, IsSeparator, TidyName;
    var lines := Lines(Print(l, header, comment, separator));
    forall x | x in lines ensures !Classify(DropCR(x)).Indented? { OutsetLine(x); }
    FeedAllCounts(START, lines);
    PrintedSettings(l, header, comment, separator);
  }

  /** A configuration that comes back unchanged could be saved. */
  lemma ComesBackIsSavable(l: Listing, header: string, comment: string, separator: string)
    requires Proper(l) && IsComment(comment) && IsSeparator(separator)
    requires Read(Print(l, header, comment, separator)) == Some(l)
    ensures Savable(l, header, comment, separator)
  {
    hide Print, PrintedLines, Read, Lines, Outset, IsComment, IsSeparator, TidyEntry, TidyName, SingleValue, Named,
      IsSetting, ReadsAsOption, Got, EntryOk, ByteLength, Pieces;
    ComesBackSingle(l, header, comment, separator);
    LinesArePrinted(l, header, comment, separator);
    ComesBackAsSettings(l, header, comment, separator);
    LinesFit(l, header, comment, separator);
    IsReadable(l, separator);
    ReadsPrinted(l, header, comment, separator);
    GotIsSavable(l, separator);
  }

  lemma IsReadable(l: Listing, separator: string)
    requires IsSeparator(separator) && AllEntries(l, TidyEntry) && AllNames(l, TidyName)
    requires forall s :: s in l.options ==> forall e :: e in l.options[s] ==> IsSetting(e, separator)
    requires forall s :: s in l.options ==> ByteLength("[" + s + "]") <= MAX_LINE
    requires forall s, e :: s in l.options && e in l.options[s] ==> ByteLength(e.option + separator + e.value) <= MAX_LINE
    ensures Readable(l, separator)
  {
    hide TidyEntry, IsSeparator, ByteLength, NameOk;
    forall s, e | s in l.options && e in l.options[s] ensures ReadsAsOption(e, separator) {
      SettingOfOwn(e, separator);
    }
  }

  lemma GotIsSavable(l: Listing, separator: string)
    requires IsSeparator(separator) && Readable(l, separator) && GotListing(l, separator) == l
    requires AllEntries(l, TidyEntry) && AllNames(l, TidyName) && AllEntries(l, SingleValue)
    ensures forall s :: s in l.options ==> NameOk(s) && Fits("[" + s + "]")
    ensures forall s :: s in l.options ==> forall e :: e in l.options[s] ==> EntryOk(e, separator)
  {
    hide TidyEntry, IsSeparator, ByteLength, NameOk, SingleValue, EntryOk, ReadsAsOption, Got;
    forall s, e | s in l.options && e in l.options[s] ensures EntryOk(e, separator) {
      assert GotListing(l, separator).options[s] == GotAll(l.options[s], separator) == l.options[s];
      GotIsGood(e, separator);
    }
    forall s | s in l.options ensures SingleLine("[" + s + "]") {
      assert TidyName(s);
    }
  }

  /**
   * Under any header, comment and separator style, reading a saved configuration gives exactly
   * that configuration if and only if each section name and each option with its value is well
   * formed, fits on a line and shows no comment once printed.
   */
  lemma RoundTripExactly(l: Listing, header: string, comment: string, separator: string)
    requires Proper(l) && IsComment(comment) && IsSeparator(separator)
    ensures Read(Print(l, header, comment, separator)) == Some(l) <==> Savable(l, header, comment, separator)
  {
    hide Read, Print, Savable, Proper, IsComment, IsSeparator;
    OrderIsKnown(l);
    if Savable(l, header, comment, separator) { RoundTrip(l, header, comment, separator); }
    if Read(Print(l, header, comment, separator)) == Some(l) { ComesBackIsSavable(l, header, comment, separator); }
  }

  lemma OrderIsKnown(l: Listing)
    requires Proper(l)
    ensures forall s :: s in l.order ==> s in l.options
  {
  }

  // ---------------------------------------------------------------- a file that cannot be saved again

  lemma IndentedExample()
    ensures Classify(" c") == Indented("c")
  {
    var line := " c";
    assert NoComment(line);
    UncommentedWhole(line);
    TrimRightPadded(line, "");
    assert line + "" == line;
    TrimSpacePadded(" ", "c", "");
    assert " " + "c" + "" == line;
  }

  lemma ExampleLines()
    ensures Lines("[s]\na: b\n c\n") == ["[s]", "a: b", " c"]
  {
    var lines := ["[s]", "a: b", " c"];
    assert Unlines(lines[3..]) == "";
    assert Unlines(lines[2..]) == " c\n";
    assert Unlines(lines[1..]) == "a: b\n" + " c\n";
    assert Unlines(lines) == "[s]\n" + ("a: b\n" + " c\n") == "[s]\na: b\n c\n";
    LinesOfUnlines(lines);
  }

  const SECTION_S := Listing([DEFAULT_SECTION, "s"], map[DEFAULT_SECTION := [], "s" := []])

  /** Option a of section s, with a value over two lines. */
  function TwoLines(value: string): Listing {
    Listing([DEFAULT_SECTION, "s"], map[DEFAULT_SECTION := [], "s" := [Entry("a", value)]])
  }

  lemma TitleSays()
    ensures Classify("[s]") == Header("s")
  {
    hide Classify;
    HeaderRoundTrip("s");
    assert "[" + "s" + "]" == "[s]";
  }

  lemma OptionSays()
    ensures Classify("a: b") == Setting("a", "b")
  {
    hide Classify;
    SettingRoundTrip("a", "b", ':', false, true);
    assert "a" + Separator(':', false, true) + "b" == "a: b";
  }

  lemma ExampleLinesSay()
    ensures Classify(DropCR("[s]")) == Header("s")
    ensures Classify(DropCR("a: b")) == Setting("a", "b")
    ensures Classify(DropCR(" c")) == Indented("c")
  {
    hide Classify;
    TitleSays();
    OptionSays();
    IndentedExample();
    assert DropCR("[s]") == "[s]" && DropCR("a: b") == "a: b" && DropCR(" c") == " c";
  }

  lemma NamesDiffer()
    ensures "s" != DEFAULT_SECTION
  {
    assert |"s"| == 1 && |DEFAULT_SECTION| == 7;
  }

  lemma FeedExample()
    ensures Feed(START, "[s]") == Some(Parser(SECTION_S, "s", ""))
    ensures Feed(Parser(SECTION_S, "s", ""), "a: b") == Some(Parser(TwoLines("b"), "s", "a"))
    ensures Feed(Parser(TwoLines("b"), "s", "a"), " c") == Some(Parser(TwoLines("b\nc"), "s", "a"))
  {
    hide Classify, DropCR, ByteLength, AddOption, Find;
    ExampleLinesSay();
    ShortFits("[s]");
    ShortFits("a: b");
    ShortFits(" c");
    NamesDiffer();
    assert EMPTY.options["s" := []] == SECTION_S.options;
    assert EMPTY.order + ["s"] == SECTION_S.order;
    DropLone();
    AddToS(SECTION_S, [], "b");
    assert "b" + "\n" + "c" == "b\nc";
    AddToS(TwoLines("b"), [Entry("a", "b")], "b\nc");
  }

  lemma DropLone()
    ensures DropEntry([], "a") == [] && DropEntry([Entry("a", "b")], "a") == []
    ensures Find([Entry("a", "b")], "a") == Some("b")
  {
    assert [Entry("a", "b")][..0] == [];
  }

  lemma AddToS(l: Listing, es: seq<Entry>, value: string)
    requires l == Listing([DEFAULT_SECTION, "s"], map[DEFAULT_SECTION := [], "s" := es])
    requires DropEntry(es, "a") == []
    ensures AddOption(l, "s", "a", value) == TwoLines(value)
  {
    hide DropEntry;
    NamesDiffer();
    assert [] + [Entry("a", value)] == [Entry("a", value)];
    assert l.options["s" := [Entry("a", value)]] == TwoLines(value).options;
  }

  lemma TwoLinesProper(value: string)
    ensures Proper(TwoLines(value))
  {
    NamesDiffer();
  }

  /** A file with a continuation line is read, and in no style can what was read be saved and read back. */
  lemma MultiLineExample(header: string, comment: string, separator: string)
    requires IsComment(comment) && IsSeparator(separator)
    ensures Read("[s]\na: b\n c\n") == Some(TwoLines("b\nc"))
    ensures forall s :: s in TwoLines("b\nc").order ==> s in TwoLines("b\nc").options
    ensures Read(Print(TwoLines("b\nc"), header, comment, separator)) != Some(TwoLines("b\nc"))
  {
    hide Print, Read, IsComment, IsSeparator, SingleValue, Named, TidyEntry, TidyName;
    ExampleIsRead();
    TwoLinesProper("b\nc");
    BreakIsNotSingle();
    var l := TwoLines("b\nc");
    assert Entry("a", "b\nc") in l.options["s"];
    if Read(Print(l, header, comment, separator)) == Some(l) {
      ComesBackSingle(l, header, comment, separator);
    }
  }

  lemma BreakIsNotSingle()
    ensures !SingleValue(Entry("a", "b\nc"))
  {
    assert "b\nc"[1] == '\n';
  }

  lemma ExampleIsRead()
    ensures Read("[s]\na: b\n c\n") == Some(TwoLines("b\nc"))
  {
    hide Feed, Lines;
    ExampleLines();
    FeedExample();
    var lines := ["[s]", "a: b", " c"];
    assert lines[1..] == ["a: b", " c"] && lines[1..][1..] == [" c"] && lines[1..][1..][1..] == [];
  }
}
