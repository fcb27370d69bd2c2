/**
 * What a configuration means to its users: sections in order, each with its options in order.
 * The maps and counters of common/config are proved to implement these lists.
 */
module ConfigListing {
  import opened Basics

  const DEFAULT_SECTION := "DEFAULT"

  datatype Entry = Entry(option: string, value: string)

  datatype Listing = Listing(order: seq<string>, options: map<string, seq<Entry>>)

  /** The listing every configuration starts from. */
  const EMPTY := Listing([DEFAULT_SECTION], map[DEFAULT_SECTION := []])

  // ---------------------------------------------------------------- list operations

  function Drop<T(==)>(s: seq<T>, x: T): seq<T> {
    if s == [] then []
    else Drop(s[..|s| - 1], x) + (if s[|s| - 1] == x then [] else [s[|s| - 1]])
  }

  function DropEntry(es: seq<Entry>, option: string): seq<Entry> {
    if es == [] then []
    else DropEntry(es[..|es| - 1], option) + (if es[|es| - 1].option == option then [] else [es[|es| - 1]])
  }

  function Find(es: seq<Entry>, option: string): Option<string> {
    if es == [] then None
    else if es[|es| - 1].option == option then Some(es[|es| - 1].value)
    else Find(es[..|es| - 1], option)
  }

  function Resolve(section: string): string {
    if section == "" then DEFAULT_SECTION else section
  }

  function AddSection(l: Listing, section: string): Listing {
    if section == "" || section in l.options then l
    else Listing(l.order + [section], l.options[section := []])
  }

  function RemoveSection(l: Listing, section: string): Listing {
    if section == DEFAULT_SECTION || section !in l.options then l
    else Listing(Drop(l.order, section), l.options - {section})
  }

  /** A new option goes to the end of its section; an overwritten one moves there. */
  function AddOption(l: Listing, section: string, option: string, value: string): (r: Listing)
    requires DEFAULT_SECTION in l.options
    ensures DEFAULT_SECTION in r.options
  {
    var l1 := AddSection(l, section);
    var s := Resolve(section);
    l1.(options := l1.options[s := DropEntry(l1.options[s], option) + [Entry(option, value)]])
  }

  function RemoveOption(l: Listing, section: string, option: string): Listing {
    if section !in l.options then l
    else l.(options := l.options[section := DropEntry(l.options[section], option)])
  }

  /** The value an option has in a section, falling back to the default section. */
  function Raw(l: Listing, section: string, option: string): Option<string> {
    if section in l.options && Find(l.options[section], option).Some? then Find(l.options[section], option)
    else if DEFAULT_SECTION in l.options then Find(l.options[DEFAULT_SECTION], option)
    else None
  }

  /** The value an option has in this very section. */
  function Lookup(l: Listing, section: string, option: string): Option<string> {
    if section in l.options then Find(l.options[section], option) else None
  }

  // ---------------------------------------------------------------- list facts

  lemma {:induction false} DropAbsent<T>(s: seq<T>, x: T)
    ensures x !in Drop(s, x)
    ensures forall y :: y in Drop(s, x) <==> y in s && y != x
    ensures x !in s ==> Drop(s, x) == s
  {
    if s != [] {
      DropAbsent(s[..|s| - 1], x);
      assert s == s[..|s| - 1] + [s[|s| - 1]];
    }
  }

  lemma DropAppend<T>(s: seq<T>, y: T, x: T)
    ensures Drop(s + [y], x) == Drop(s, x) + (if y == x then [] else [y])
  {
    assert (s + [y])[..|s|] == s;
  }

  lemma DropEntryAppend(es: seq<Entry>, e: Entry, option: string)
    ensures DropEntry(es + [e], option) == DropEntry(es, option) + (if e.option == option then [] else [e])
  {
    assert (es + [e])[..|es|] == es;
  }

  ghost predicate UniqueOptions(es: seq<Entry>) {
    forall i, j :: 0 <= i < j < |es| ==> es[i].option != es[j].option
  }

  lemma {:induction false} DropEntryAbsent(es: seq<Entry>, option: string)
    requires forall e :: e in es ==> e.option != option
    ensures DropEntry(es, option) == es
  {
    if es != [] {
      DropEntryAbsent(es[..|es| - 1], option);
      assert es == es[..|es| - 1] + [es[|es| - 1]];
    }
  }

  lemma {:induction false} FindDropped(es: seq<Entry>, option: string, other: string)
    ensures Find(DropEntry(es, option), other) == if other == option then None else Find(es, other)
  {
    if es != [] {
      FindDropped(es[..|es| - 1], option, other);
      if es[|es| - 1].option != option {
        assert DropEntry(es, option)[..|DropEntry(es, option)| - 1] == DropEntry(es[..|es| - 1], option);
      } else {
        assert DropEntry(es, option) == DropEntry(es[..|es| - 1], option);
      }
    }
  }

  lemma LookupAdded(l: Listing, section: string, option: string, value: string)
    requires DEFAULT_SECTION in l.options && section != ""
    ensures forall s, o ::
      Lookup(AddOption(l, section, option, value), s, o)
      == (if s == section && o == option then Some(value) else Lookup(l, s, o))
    ensures AddOption(l, section, option, value).options.Keys == l.options.Keys + {section}
  {
    var es := AddSection(l, section).options[section];
    forall o
      ensures Find(DropEntry(es, option) + [Entry(option, value)], o) == if o == option then Some(value) else Find(es, o)
    {
      FindDropped(es, option, o);
    }
  }

  lemma {:induction false} FindExactly(es: seq<Entry>, option: string, value: string)
    requires UniqueOptions(es)
    ensures Find(es, option) == Some(value) <==> Entry(option, value) in es
    ensures Find(es, option) == None <==> forall e :: e in es ==> e.option != option
  {
    if es != [] {
      var init, last := es[..|es| - 1], es[|es| - 1];
      assert es == init + [last];
      FindExactly(init, option, value);
      assert forall e :: e in init ==> e.option != last.option;
    }
  }

  /** The section does not have the option itself. */
  ghost predicate Lacks(l: Listing, section: string, option: string) {
    section !in l.options || forall e :: e in l.options[section] ==> e.option != option
  }

  /** An option has the value listed for it in its section or, only when that lacks it, in the default one. */
  lemma RawExactly(l: Listing, section: string, option: string, value: string)
    requires "DEFAULT" in l.options && forall s :: s in l.options ==> UniqueOptions(l.options[s])
    ensures Raw(l, section, option) == Some(value) <==>
      if Lacks(l, section, option) then Entry(option, value) in l.options["DEFAULT"]
      else Entry(option, value) in l.options[section]
  {
    hide UniqueOptions;
    FindExactly(l.options["DEFAULT"], option, value);
    if section in l.options { FindExactly(l.options[section], option, value); }
  }
}
