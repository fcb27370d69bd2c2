/**
 * The representation behind a configuration: maps whose order is kept by ever-growing
 * identifiers (common/config/config.go:58-77), and the lists it stands for.
 */
module ConfigStore {
  import opened Basics
  import opened ConfigListing

  datatype TValue = TValue(position: nat, v: string)

  datatype Store = Store(
    lastIdSection: nat,
    idSection: map<string, nat>,
    lastIdOption: map<string, nat>,
    data: map<string, map<string, TValue>>)

  // ---------------------------------------------------------------- keys in the order of their numbers

  ghost predicate Injective(m: map<string, nat>) {
    forall k1, k2 :: k1 in m && k2 in m && m[k1] == m[k2] ==> k1 == k2
  }

  ghost predicate Below(m: map<string, nat>, n: nat) {
    forall k :: k in m ==> m[k] < n
  }

  /** The keys numbered `i`. */
  ghost function KeysAt(m: map<string, nat>, i: nat): (r: seq<string>)
    ensures forall k :: k in r ==> k in m && m[k] == i
    ensures |r| <= 1
    ensures r == [] ==> forall k :: k in m ==> m[k] != i
  {
    if exists k :: k in m && m[k] == i then
      var k :| k in m && m[k] == i;
      [k]
    else []
  }

  /** The keys numbered below `n`, in increasing order. */
  ghost function Ordered(m: map<string, nat>, n: nat): seq<string> {
    if n == 0 then [] else Ordered(m, n - 1) + KeysAt(m, n - 1)
  }

  lemma KeysAtKnown(m: map<string, nat>, k: string)
    requires Injective(m) && k in m
    ensures KeysAt(m, m[k]) == [k]
  {
  }

  lemma {:induction false} OrderedMembers(m: map<string, nat>, n: nat)
    requires Injective(m)
    ensures forall k :: k in Ordered(m, n) <==> k in m && m[k] < n
    ensures forall i, j :: 0 <= i < j < |Ordered(m, n)| ==> Ordered(m, n)[i] != Ordered(m, n)[j]
  {
    if n > 0 {
      OrderedMembers(m, n - 1);
    }
  }

  /** Taking a key out of the map takes it out of the order and disturbs nothing else. */
  lemma {:induction false} OrderedWithout(m: map<string, nat>, m': map<string, nat>, k: string, n: nat)
    requires Injective(m) && Injective(m')
    requires forall x :: x in m && x != k ==> x in m' && m'[x] == m[x]
    requires forall x :: x in m' && x != k ==> x in m
    requires k in m' ==> m'[k] >= n
    ensures Ordered(m', n) == Drop(Ordered(m, n), k)
  {
    if n > 0 {
      OrderedWithout(m, m', k, n - 1);
      var before := Ordered(m, n - 1);
      if KeysAt(m, n - 1) == [] {
        assert KeysAt(m', n - 1) == [];
        assert Ordered(m, n) == before;
      } else {
        var x := KeysAt(m, n - 1)[0];
        assert Ordered(m, n)[..|Ordered(m, n)| - 1] == before;
        if x != k {
          KeysAtKnown(m', x);
        } else {
          assert KeysAt(m', n - 1) == [];
        }
      }
    }
  }

  /** Numbering a key with the next counter value moves it to the end of the order. */
  lemma OrderedNext(m: map<string, nat>, k: string, n: nat)
    requires Injective(m) && Below(m, n)
    ensures Injective(m[k := n]) && Below(m[k := n], n + 1)
    ensures Ordered(m[k := n], n + 1) == Drop(Ordered(m, n), k) + [k]
  {
    OrderedWithout(m, m[k := n], k, n);
    KeysAtKnown(m[k := n], k);
  }

  // ---------------------------------------------------------------- options of one section

  ghost function Positions(opts: map<string, TValue>): map<string, nat> {
    map o | o in opts :: opts[o].position
  }

  ghost function EntriesOf(keys: seq<string>, opts: map<string, TValue>): (r: seq<Entry>)
    requires forall k :: k in keys ==> k in opts
    ensures |r| == |keys|
    ensures forall i :: 0 <= i < |r| ==> r[i] == Entry(keys[i], opts[keys[i]].v)
  {
    if keys == [] then []
    else
      var k := keys[|keys| - 1];
      EntriesOf(keys[..|keys| - 1], opts) + [Entry(k, opts[k].v)]
  }

  ghost predicate Numbered(opts: map<string, TValue>, n: nat) {
    Injective(Positions(opts)) && Below(Positions(opts), n)
  }

  ghost function Entries(opts: map<string, TValue>, n: nat): seq<Entry>
    requires Numbered(opts, n)
  {
    OrderedMembers(Positions(opts), n);
    EntriesOf(Ordered(Positions(opts), n), opts)
  }

  lemma {:induction false} EntriesOfDrop(keys: seq<string>, o: string, opts: map<string, TValue>, opts': map<string, TValue>)
    requires forall k :: k in keys ==> k in opts
    requires forall k :: k in keys && k != o ==> k in opts' && opts'[k].v == opts[k].v
    ensures forall k :: k in Drop(keys, o) ==> k in opts'
    ensures EntriesOf(Drop(keys, o), opts') == DropEntry(EntriesOf(keys, opts), o)
  {
    hide Drop, DropEntry, EntriesOf;
    if keys == [] {
      EntriesOfNothing(o, opts, opts');
    } else {
      var init, k := keys[..|keys| - 1], keys[|keys| - 1];
      assert keys == init + [k];
      EntriesOfDrop(init, o, opts, opts');
      DropAppend(init, k, o);
      EntriesOfAppend(init, k, opts);
      DropEntryAppend(EntriesOf(init, opts), Entry(k, opts[k].v), o);
      if k != o {
        EntriesOfAppend(Drop(init, o), k, opts');
      } else {
        assert Drop(keys, o) == Drop(init, o);
      }
    }
  }

  lemma EntriesOfNothing(o: string, opts: map<string, TValue>, opts': map<string, TValue>)
    ensures Drop([], o) == [] && EntriesOf([], opts) == [] && EntriesOf([], opts') == [] && DropEntry([], o) == []
  {
  }

  lemma EntriesOfAppend(keys: seq<string>, k: string, opts: map<string, TValue>)
    requires k in opts && forall x :: x in keys ==> x in opts
    ensures EntriesOf(keys + [k], opts) == EntriesOf(keys, opts) + [Entry(k, opts[k].v)]
  {
    assert (keys + [k])[..|keys|] == keys;
  }

  lemma EntriesNext(opts: map<string, TValue>, o: string, v: string, n: nat)
    requires Numbered(opts, n)
    ensures Numbered(opts[o := TValue(n, v)], n + 1)
    ensures Entries(opts[o := TValue(n, v)], n + 1) == DropEntry(Entries(opts, n), o) + [Entry(o, v)]
  {
    var opts' := opts[o := TValue(n, v)];
    var keys := Ordered(Positions(opts), n);
    assert Positions(opts') == Positions(opts)[o := n];
    OrderedNext(Positions(opts), o, n);
    OrderedMembers(Positions(opts), n);
    EntriesOfDrop(keys, o, opts, opts');
    var keys' := Drop(keys, o) + [o];
    assert keys'[..|keys'| - 1] == Drop(keys, o);
    assert Ordered(Positions(opts'), n + 1) == keys';
  }

  lemma EntriesWithout(opts: map<string, TValue>, o: string, n: nat)
    requires Numbered(opts, n)
    ensures Numbered(opts - {o}, n)
    ensures Entries(opts - {o}, n) == DropEntry(Entries(opts, n), o)
  {
    var opts' := opts - {o};
    assert Positions(opts') == Positions(opts) - {o};
    OrderedWithout(Positions(opts), Positions(opts'), o, n);
    OrderedMembers(Positions(opts), n);
    EntriesOfDrop(Ordered(Positions(opts), n), o, opts, opts');
  }

  lemma EntriesFind(opts: map<string, TValue>, n: nat, o: string)
    requires Numbered(opts, n)
    ensures Find(Entries(opts, n), o) == if o in opts then Some(opts[o].v) else None
    ensures UniqueOptions(Entries(opts, n))
    ensures |Entries(opts, n)| == 0 <==> opts == map[]
  {
    var keys := Ordered(Positions(opts), n);
    OrderedMembers(Positions(opts), n);
    FindInKeys(keys, opts, o);
    if opts != map[] {
      var k :| k in opts;
      assert k in Positions(opts) && k in keys;
    }
  }

  lemma {:induction false} FindInKeys(keys: seq<string>, opts: map<string, TValue>, o: string)
    requires forall k :: k in keys ==> k in opts
    ensures Find(EntriesOf(keys, opts), o) == if o in keys then Some(opts[o].v) else None
  {
    if keys != [] {
      FindInKeys(keys[..|keys| - 1], opts, o);
      assert EntriesOf(keys, opts)[..|keys| - 1] == EntriesOf(keys[..|keys| - 1], opts);
      assert keys == keys[..|keys| - 1] + [keys[|keys| - 1]];
    }
  }

  // ---------------------------------------------------------------- whole stores

  function LastId(lastIdOption: map<string, nat>, section: string): nat {
    if section in lastIdOption then lastIdOption[section] else 0
  }

  ghost predicate DataOk(data: map<string, map<string, TValue>>, last: map<string, nat>) {
    forall s :: s in data ==> Numbered(data[s], LastId(last, s))
  }

  ghost function Contents(data: map<string, map<string, TValue>>, last: map<string, nat>): map<string, seq<Entry>>
    requires DataOk(data, last)
  {
    map s | s in data :: Entries(data[s], LastId(last, s))
  }

  /** Identifiers are distinct and below their counters; the default section came first and stays. */
  ghost predicate Valid(st: Store) {
    && "" !in st.data
    && st.idSection.Keys == st.data.Keys
    && st.lastIdOption.Keys <= st.data.Keys
    && Injective(st.idSection) && Below(st.idSection, st.lastIdSection)
    && DEFAULT_SECTION in st.data && st.idSection[DEFAULT_SECTION] == 0
    && DataOk(st.data, st.lastIdOption)
  }

  ghost function View(st: Store): Listing
    requires Valid(st)
  {
    Listing(Ordered(st.idSection, st.lastIdSection), Contents(st.data, st.lastIdOption))
  }

  lemma DataUpdate(data: map<string, map<string, TValue>>, last: map<string, nat>,
                   s: string, opts: map<string, TValue>, last': map<string, nat>)
    requires DataOk(data, last)
    requires forall x :: x in data && x != s ==> LastId(last', x) == LastId(last, x)
    requires Numbered(opts, LastId(last', s))
    ensures DataOk(data[s := opts], last')
  {
    var data' := data[s := opts];
    forall x | x in data'
      ensures Numbered(data'[x], LastId(last', x))
    {
      if x != s { assert data'[x] == data[x]; }
    }
  }

  /** Replacing one section's options replaces that section's entries only. */
  lemma ContentsUpdate(data: map<string, map<string, TValue>>, last: map<string, nat>,
                       s: string, opts: map<string, TValue>, last': map<string, nat>)
    requires DataOk(data, last) && DataOk(data[s := opts], last')
    requires forall x :: x in data && x != s ==> LastId(last', x) == LastId(last, x)
    requires Numbered(opts, LastId(last', s))
    ensures Contents(data[s := opts], last') == Contents(data, last)[s := Entries(opts, LastId(last', s))]
  {
    hide Numbered, Entries;
    var data' := data[s := opts];
    var c, c' := Contents(data, last), Contents(data', last');
    assert c'.Keys == c.Keys + {s};
    assert c'[s] == Entries(opts, LastId(last', s));
    forall x | x in data && x != s
      ensures c'[x] == c[x]
    {
      ContentsAt(data, last, data', last', x);
    }
  }

  lemma ContentsAt(data: map<string, map<string, TValue>>, last: map<string, nat>,
                   data': map<string, map<string, TValue>>, last': map<string, nat>, x: string)
    requires DataOk(data, last) && DataOk(data', last')
    requires x in data && x in data' && data'[x] == data[x] && LastId(last', x) == LastId(last, x)
    ensures Contents(data', last')[x] == Contents(data, last)[x]
  {
  }

  function WithSection(st: Store, s: string): Store {
    Store(st.lastIdSection + 1, st.idSection[s := st.lastIdSection], st.lastIdOption, st.data[s := map[]])
  }

  lemma WithSectionValid(st: Store, s: string)
    requires Valid(st) && s != "" && s !in st.data
    ensures Valid(WithSection(st, s))
  {
    OrderedNext(st.idSection, s, st.lastIdSection);
    DataUpdate(st.data, st.lastIdOption, s, map[], st.lastIdOption);
  }

  lemma AddSectionRefines(st: Store, s: string)
    requires Valid(st) && s != "" && s !in st.data
    ensures Valid(WithSection(st, s))
    ensures View(WithSection(st, s)) == AddSection(View(st), s)
  {
    WithSectionValid(st, s);
    OrderedNext(st.idSection, s, st.lastIdSection);
    OrderedMembers(st.idSection, st.lastIdSection);
    DropAbsent(Ordered(st.idSection, st.lastIdSection), s);
    ContentsUpdate(st.data, st.lastIdOption, s, map[], st.lastIdOption);
  }

  function WithOption(st: Store, s: string, o: string, v: string): Store
    requires s in st.data
  {
    Store(st.lastIdSection, st.idSection,
          st.lastIdOption[s := LastId(st.lastIdOption, s) + 1],
          st.data[s := st.data[s][o := TValue(LastId(st.lastIdOption, s), v)]])
  }

  lemma WithOptionFields(st: Store, s: string, o: string, v: string, n: nat)
    requires s in st.data && n == LastId(st.lastIdOption, s)
    ensures WithOption(st, s, o, v)
         == Store(st.lastIdSection, st.idSection, st.lastIdOption[s := n + 1],
                  st.data[s := st.data[s][o := TValue(n, v)]])
  {
  }

  lemma IsWithOption(st: Store, s: string, o: string, v: string, n: nat,
                     last: map<string, nat>, data: map<string, map<string, TValue>>)
    requires s in st.data && n == LastId(st.lastIdOption, s)
    requires last == st.lastIdOption[s := n + 1]
    requires data == st.data[s := st.data[s][o := TValue(n, v)]]
    ensures Store(st.lastIdSection, st.idSection, last, data) == WithOption(st, s, o, v)
  {
  }

  lemma CounterMoves(last: map<string, nat>, s: string, n: nat)
    ensures LastId(last[s := n], s) == n && forall x :: x != s ==> LastId(last[s := n], x) == LastId(last, x)
  {
  }

  lemma SectionNumbers(st: Store, s: string)
    requires DataOk(st.data, st.lastIdOption) && s in st.data
    ensures Numbered(st.data[s], LastId(st.lastIdOption, s))
  {
  }

  lemma WithOptionValid(st: Store, s: string, o: string, v: string)
    requires Valid(st) && s in st.data
    ensures Valid(WithOption(st, s, o, v))
  {
    hide Numbered, Injective, Below, DataOk, LastId;
    var n := LastId(st.lastIdOption, s);
    SectionNumbers(st, s);
    CounterMoves(st.lastIdOption, s, n + 1);
    EntriesNext(st.data[s], o, v, n);
    DataUpdate(st.data, st.lastIdOption, s, st.data[s][o := TValue(n, v)], st.lastIdOption[s := n + 1]);
  }

  lemma AddOptionRefines(st: Store, s: string, o: string, v: string)
    requires Valid(st) && s in st.data
    ensures Valid(WithOption(st, s, o, v))
    ensures View(WithOption(st, s, o, v)) == AddOption(View(st), s, o, v)
  {
    WithOptionValid(st, s, o, v);
    var n := LastId(st.lastIdOption, s);
    var opts, last := st.data[s][o := TValue(n, v)], st.lastIdOption[s := n + 1];
    WithOptionFields(st, s, o, v, n);
    assert LastId(last, s) == n + 1;
    EntriesNext(st.data[s], o, v, n);
    ContentsUpdate(st.data, st.lastIdOption, s, opts, last);
    var l := View(st);
    assert l.options[s] == Entries(st.data[s], n);
    assert Contents(st.data[s := opts], last) == l.options[s := DropEntry(l.options[s], o) + [Entry(o, v)]];
    assert AddSection(l, s) == l && Resolve(s) == s;
  }

  lemma RemoveOptionRefines(st: Store, s: string, o: string)
    requires Valid(st) && s in st.data
    ensures var st' := st.(data := st.data[s := st.data[s] - {o}]);
      Valid(st') && View(st') == RemoveOption(View(st), s, o)
  {
    EntriesWithout(st.data[s], o, LastId(st.lastIdOption, s));
    DataUpdate(st.data, st.lastIdOption, s, st.data[s] - {o}, st.lastIdOption);
    ContentsUpdate(st.data, st.lastIdOption, s, st.data[s] - {o}, st.lastIdOption);
  }

  lemma ContentsRemove(data: map<string, map<string, TValue>>, last: map<string, nat>, s: string)
    requires DataOk(data, last)
    ensures DataOk(data - {s}, last - {s})
    ensures Contents(data - {s}, last - {s}) == Contents(data, last) - {s}
  {
    forall x | x in data - {s}
      ensures (data - {s})[x] == data[x] && LastId(last - {s}, x) == LastId(last, x)
    {
    }
    forall x | x in data - {s}
      ensures Contents(data - {s}, last - {s})[x] == Contents(data, last)[x]
    {
      ContentsAt(data, last, data - {s}, last - {s}, x);
    }
  }

  lemma RemoveSectionRefines(st: Store, s: string)
    requires Valid(st) && s in st.data && s != DEFAULT_SECTION
    ensures var st' := Store(st.lastIdSection, st.idSection - {s}, st.lastIdOption - {s}, st.data - {s});
      Valid(st') && View(st') == RemoveSection(View(st), s)
  {
    OrderedWithout(st.idSection, st.idSection - {s}, s, st.lastIdSection);
    ContentsRemove(st.data, st.lastIdOption, s);
  }
}
