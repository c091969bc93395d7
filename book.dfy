/** The address book: an insertion-ordered dictionary from a contact's name
    to the contact, saved in full after every change. The file is replaced by
    a ghost copy of what was last saved and a count of saves. */
module Book {
  import opened Outcomes
  import opened Text
  import opened Contacts

  /** The dictionary as a value: its keys in insertion order and the entries. */
  datatype BookState = BookState(order: seq<string>, data: map<string, Contact>)

  /** Keys are listed once each, exactly the keys of the entries, and each
      entry sits under its own name. */
  ghost predicate WellFormed(st: BookState) {
    (forall i, j :: 0 <= i < j < |st.order| ==> st.order[i] != st.order[j]) &&
    (forall k :: k in st.data <==> k in st.order) &&
    (forall k :: k in st.data ==> st.data[k].name == k)
  }

  function Empty(): BookState {
    BookState([], map[])
  }

  /** `self.data.get(name)`. */
  function Lookup(st: BookState, name: string): Option<Contact> {
    if name in st.data then Some(st.data[name]) else None
  }

  /** `self.data[c.name] = c`: a new key goes last; an existing key keeps its
      place and its entry is replaced. */
  function Put(st: BookState, c: Contact): (r: BookState)
    ensures c.name in r.data && r.data[c.name] == c
    ensures forall k :: k != c.name ==> (k in r.data <==> k in st.data)
    ensures forall k :: k != c.name && k in st.data ==> r.data[k] == st.data[k]
    ensures st.order <= r.order
    ensures WellFormed(st) ==> c.name in r.order
  {
    BookState(if c.name in st.data then st.order else st.order + [c.name], st.data[c.name := c])
  }

  /** `del self.data[name]` when the key is present; otherwise nothing. */
  function Remove(st: BookState, name: string): (r: BookState)
    ensures name !in r.data
    ensures WellFormed(st) ==> name !in r.order
    ensures forall k :: k != name ==> (k in r.data <==> k in st.data) && (k in r.order <==> k in st.order)
    ensures forall k :: k in r.data ==> r.data[k] == st.data[k]
    ensures name !in st.data ==> r == st
  {
    if name in st.data then BookState(Without(st.order, name), st.data - {name}) else st
  }

  /** After a put, the contact is found under its name, every other key finds
      what it found before, and the dictionary stays well formed. */
  lemma PutThenLookup(st: BookState, c: Contact)
    requires WellFormed(st)
    ensures WellFormed(Put(st, c))
    ensures Lookup(Put(st, c), c.name) == Some(c)
    ensures forall k :: k != c.name ==> Lookup(Put(st, c), k) == Lookup(st, k)
    ensures |Put(st, c).order| == |st.order| + (if c.name in st.data then 0 else 1)
  {
  }

  /** After a remove, the key is gone, every other key finds what it found
      before, the remaining keys keep their order, and removing an absent key
      changes nothing. */
  lemma RemoveThenLookup(st: BookState, name: string)
    requires WellFormed(st)
    ensures WellFormed(Remove(st, name))
    ensures Lookup(Remove(st, name), name) == None
    ensures forall k :: k != name ==> Lookup(Remove(st, name), k) == Lookup(st, k)
    ensures name !in st.data ==> Remove(st, name) == st
    ensures multiset(Remove(st, name).order) == multiset(st.order)[name := 0]
  {
    WithoutCounts(st.order, name);
    if name in st.data {
      RemoveKeepsKeysDistinct(st, name);
    }
  }

  lemma RemoveKeepsKeysDistinct(st: BookState, name: string)
    requires WellFormed(st) && name in st.data
    ensures var o := Remove(st, name).order; forall i, j :: 0 <= i < j < |o| ==> o[i] != o[j]
  {
    var o := Without(st.order, name);
    forall i, j | 0 <= i < j < |o| ensures o[i] != o[j] {
      WithoutKeepsDistinct(st.order, name, i, j);
    }
  }

  lemma {:induction false} WithoutKeepsDistinct(s: seq<string>, x: string, i: int, j: int)
    requires forall a, b :: 0 <= a < b < |s| ==> s[a] != s[b]
    requires 0 <= i < j < |Without(s, x)|
    ensures Without(s, x)[i] != Without(s, x)[j]
  {
    var init := s[..|s| - 1];
    if s[|s| - 1] == x {
      WithoutKeepsDistinct(init, x, i, j);
    } else if j < |Without(init, x)| {
      WithoutKeepsDistinct(init, x, i, j);
    } else {
      assert Without(s, x)[i] in init;
    }
  }

  // ---------------------------------------------------------------------
  // search

  /** The name rule of `search`: the lowered query occurs in the lowered name. */
  predicate NameMatches(c: Contact, query: string) {
    Contains(Lower(c.name), Lower(query))
  }

  /** The copies `search`'s inner loop appends: one per phone, in order, that
      contains the query (case-sensitive). */
  function PhoneHits(c: Contact, phones: seq<string>, query: string): (r: seq<Contact>)
    ensures |r| <= |phones|
    ensures forall x :: x in r ==> x == c
  {
    if phones == [] then []
    else PhoneHits(c, phones[..|phones| - 1], query)
         + (if Contains(phones[|phones| - 1], query) then [c] else [])
  }

  /** One more turn of the inner loop: appending the phone's copy, if any,
      to what was gathered so far gives the hits of one more phone. */
  lemma PhoneHitsStep(acc: seq<Contact>, c: Contact, phones: seq<string>, j: int, query: string)
    requires 0 <= j < |phones|
    ensures acc + PhoneHits(c, phones[..j + 1], query)
            == acc + PhoneHits(c, phones[..j], query) + (if Contains(phones[j], query) then [c] else [])
  {
    assert phones[..j + 1][..j] == phones[..j];
    var ph, x := PhoneHits(c, phones[..j], query), if Contains(phones[j], query) then [c] else [];
    assert (acc + ph) + x == acc + (ph + x);
  }

  /** Everything `search` appends for one contact. */
  function Hits(c: Contact, query: string): (r: seq<Contact>)
    ensures |r| <= 1 + |c.phones|
    ensures forall x :: x in r ==> x == c
  {
    (if NameMatches(c, query) then [c] else []) + PhoneHits(c, c.phones, query)
  }

  /** `self.data.values()`: the entries in key order. */
  function Values(st: BookState): (r: seq<Contact>)
    requires WellFormed(st)
    ensures |r| == |st.order|
    ensures forall i :: 0 <= i < |r| ==> r[i] == st.data[st.order[i]]
  {
    seq(|st.order|, i requires 0 <= i < |st.order| => st.data[st.order[i]])
  }

  /** The results of `search` over the given contacts, in their order. */
  function SearchIn(cs: seq<Contact>, query: string): (r: seq<Contact>)
    ensures forall x :: x in r ==> x in cs
  {
    if cs == [] then []
    else SearchIn(cs[..|cs| - 1], query) + Hits(cs[|cs| - 1], query)
  }

  /** One more turn of the outer loop: the results so far, then the name's
      copy, then the phones' copies, are the results of one more contact. */
  lemma SearchInStep(cs: seq<Contact>, i: int, query: string, named: seq<Contact>)
    requires 0 <= i < |cs|
    requires named == SearchIn(cs[..i], query) + (if NameMatches(cs[i], query) then [cs[i]] else [])
    ensures named + PhoneHits(cs[i], cs[i].phones, query) == SearchIn(cs[..i + 1], query)
  {
    assert cs[..i + 1][..i] == cs[..i];
    var x, n, ph := SearchIn(cs[..i], query), (if NameMatches(cs[i], query) then [cs[i]] else []), PhoneHits(cs[i], cs[i].phones, query);
    assert (x + n) + ph == x + (n + ph);
  }

  /** `search` over the whole book, in key order. */
  function SearchAll(st: BookState, query: string): (r: seq<Contact>)
    requires WellFormed(st)
    ensures forall x :: x in r ==> x.name in st.data && st.data[x.name] == x
  {
    SearchIn(Values(st), query)
  }

  /** `n` copies of one contact. */
  function Copies(c: Contact, n: nat): seq<Contact> {
    seq(n, _ => c)
  }

  /** With the empty query every phone matches. */
  lemma {:induction false} PhoneHitsEmptyQuery(c: Contact, phones: seq<string>)
    ensures PhoneHits(c, phones, "") == Copies(c, |phones|)
  {
    if phones != [] {
      PhoneHitsEmptyQuery(c, phones[..|phones| - 1]);
      EmptyIsEverywhere(phones[|phones| - 1]);
    }
  }

  /** With the empty query a contact is appended once for its name and once
      per phone. */
  lemma HitsEmptyQuery(c: Contact)
    ensures Hits(c, "") == Copies(c, 1 + |c.phones|)
  {
    PhoneHitsEmptyQuery(c, c.phones);
    EmptyIsEverywhere(Lower(c.name));
  }

  /** The phone numbers that contain the query, in order. */
  function MatchingPhones(phones: seq<string>, query: string): (r: seq<string>)
    ensures forall p :: p in r ==> p in phones && Contains(p, query)
  {
    if phones == [] then []
    else if Contains(phones[0], query) then [phones[0]] + MatchingPhones(phones[1..], query)
    else MatchingPhones(phones[1..], query)
  }

  lemma {:induction false} PhoneHitsCount(c: Contact, phones: seq<string>, query: string)
    ensures PhoneHits(c, phones, query) == Copies(c, |MatchingPhones(phones, query)|)
    decreases |phones|
  {
    if phones != [] {
      var init, last := phones[..|phones| - 1], phones[|phones| - 1];
      PhoneHitsCount(c, init, query);
      MatchingPhonesSnoc(init, last, query);
      assert phones == init + [last];
    }
  }

  lemma {:induction false} MatchingPhonesSnoc(init: seq<string>, last: string, query: string)
    ensures |MatchingPhones(init + [last], query)| ==
            |MatchingPhones(init, query)| + (if Contains(last, query) then 1 else 0)
    decreases |init|
  {
    if init == [] {
      assert init + [last] == [last];
    } else {
      assert (init + [last])[1..] == init[1..] + [last];
      MatchingPhonesSnoc(init[1..], last, query);
    }
  }

  /** A contact is appended once when its name matches, plus once per phone
      that contains the query, and nothing else is appended for it. */
  lemma HitsCount(c: Contact, query: string)
    ensures Hits(c, query) == Copies(c, (if NameMatches(c, query) then 1 else 0) + |MatchingPhones(c.phones, query)|)
  {
    PhoneHitsCount(c, c.phones, query);
  }

  /** The results over a run of contacts are those of its first part
      followed by those of its second: `search` keeps the book's order. */
  lemma {:induction false} SearchInConcat(a: seq<Contact>, b: seq<Contact>, query: string)
    ensures SearchIn(a + b, query) == SearchIn(a, query) + SearchIn(b, query)
    decreases |b|
  {
    if b == [] {
      assert a + b == a;
    } else {
      var init, last := b[..|b| - 1], b[|b| - 1];
      var ab := a + b;
      assert ab[..|ab| - 1] == a + init && ab[|ab| - 1] == last;
      var x, y, z := SearchIn(a, query), SearchIn(init, query), Hits(last, query);
      assert SearchIn(ab, query) == SearchIn(a + init, query) + z;
      assert SearchIn(b, query) == y + z;
      SearchInConcat(a, init, query);
      assert (x + y) + z == x + (y + z);
    }
  }

  /** A contact matches when its name matches or one of its phones contains the query. */
  ghost predicate Matches(c: Contact, query: string) {
    NameMatches(c, query) || exists i :: 0 <= i < |c.phones| && Contains(c.phones[i], query)
  }

  lemma {:induction false} PhoneHitsMembers(c: Contact, phones: seq<string>, query: string)
    ensures forall x :: x in PhoneHits(c, phones, query) <==>
      x == c && exists i :: 0 <= i < |phones| && Contains(phones[i], query)
  {
    if phones != [] {
      var init := phones[..|phones| - 1];
      PhoneHitsMembers(c, init, query);
      if exists i :: 0 <= i < |init| && Contains(init[i], query) {
        var i :| 0 <= i < |init| && Contains(init[i], query);
        assert phones[i] == init[i];
      }
      if exists i :: 0 <= i < |phones| && Contains(phones[i], query) {
        var i :| 0 <= i < |phones| && Contains(phones[i], query);
        if i < |init| {
          assert init[i] == phones[i];
        }
      }
    }
  }

  /** A contact appears in the results exactly when it is among the
      contacts searched and matches; nothing else appears. */
  lemma {:induction false} SearchInMembers(cs: seq<Contact>, query: string, c: Contact)
    ensures c in SearchIn(cs, query) <==> c in cs && Matches(c, query)
  {
    if cs != [] {
      var init, last := cs[..|cs| - 1], cs[|cs| - 1];
      SearchInMembers(init, query, c);
      PhoneHitsMembers(last, last.phones, query);
      assert c in Hits(last, query) <==> c == last && Matches(last, query);
      assert cs == init + [last];
    }
  }

  /** A contact appears in a book's results exactly when it is stored under
      some key and its name or one of its phones matches. */
  lemma SearchMembers(st: BookState, query: string, c: Contact)
    requires WellFormed(st)
    ensures c in SearchAll(st, query) <==> exists k :: k in st.data && st.data[k] == c && Matches(c, query)
  {
    SearchInMembers(Values(st), query, c);
    var vs := Values(st);
    if c in vs {
      var i :| 0 <= i < |vs| && vs[i] == c;
      assert st.order[i] in st.data;
    }
    if k :| k in st.data && st.data[k] == c {
      var i :| 0 <= i < |st.order| && st.order[i] == k;
      assert vs[i] == c;
    }
  }

  // ---------------------------------------------------------------------
  // The book

  class AddressBook {
    var order: seq<string>
    var data: map<string, Contact>
    /** What the file holds: nothing (no file) or the last dictionary saved. */
    ghost var disk: Option<BookState>
    /** How many times the dictionary was written. */
    ghost var saves: nat

    function State(): BookState
      reads this
    {
      BookState(order, data)
    }

    ghost predicate Valid()
      reads this
    {
      WellFormed(State())
    }

    /** `AddressBook(file_path)`: the stored dictionary when the file exists,
        otherwise an empty one. Nothing is written. */
    constructor(stored: Option<BookState>)
      requires stored.Some? ==> WellFormed(stored.value)
      ensures Valid()
      ensures State() == (if stored.Some? then stored.value else Empty())
      ensures disk == stored && saves == 0
    {
      disk := stored;
      saves := 0;
      match stored {
        case None =>
          order, data := [], map[];
        case Some(st) =>
          order, data := st.order, st.data;
      }
    }

    /** `save_data`: the whole dictionary replaces the file's contents. */
    method SaveData()
      modifies this
      ensures State() == old(State())
      ensures disk == Some(State()) && saves == old(saves) + 1
    {
      disk := Some(State());
      saves := saves + 1;
    }

    /** `add_record`: the contact is stored under its name, replacing any
        earlier one in its place, then the book is saved. */
    method AddRecord(r: Record)
      requires Valid()
      modifies this
      ensures Valid()
      ensures State() == Put(old(State()), r.Snapshot())
      ensures Find(r.Snapshot().name) == Some(r.Snapshot())
      ensures disk == Some(State()) && saves == old(saves) + 1
    {
      var c := r.Snapshot();
      PutThenLookup(State(), c);
      if c.name !in data {
        order := order + [c.name];
      }
      data := data[c.name := c];
      SaveData();
    }

    /** `delete`: removes the name when present and then saves; an absent
        name changes nothing and is not saved. */
    method Delete(name: string)
      requires Valid()
      modifies this
      ensures Valid()
      ensures State() == Remove(old(State()), name)
      ensures Find(name) == None
      ensures name in old(data) ==> disk == Some(State()) && saves == old(saves) + 1
      ensures name !in old(data) ==> disk == old(disk) && saves == old(saves)
    {
      RemoveThenLookup(State(), name);
      if name in data {
        order := Without(order, name);
        data := data - {name};
        SaveData();
      }
    }

    /** `find`: the contact stored under exactly this name, if any. */
    function Find(name: string): (r: Option<Contact>)
      reads this
      requires Valid()
      ensures r.Some? <==> name in order
      ensures r.Some? ==> r.value.name == name && r.value == data[name]
    {
      Lookup(State(), name)
    }

    /** `search`: for each contact in book order, one copy when the lowered
        query occurs in its lowered name, then one copy per phone containing
        the query. */
    method Search(query: string) returns (results: seq<Contact>)
      requires Valid()
      ensures results == SearchAll(State(), query)
    {
      ghost var vs := Values(State());
      results := [];
      var i := 0;
      while i < |order|
        invariant 0 <= i <= |order|
        invariant results == SearchIn(vs[..i], query)
      {
        var c := data[order[i]];
        if Contains(Lower(c.name), Lower(query)) {
          results := results + [c];
        }
        ghost var named := results;
        var j := 0;
        while j < |c.phones|
          invariant 0 <= j <= |c.phones|
          invariant results == named + PhoneHits(c, c.phones[..j], query)
        {
          PhoneHitsStep(named, c, c.phones, j, query);
          if Contains(c.phones[j], query) {
            results := results + [c];
          }
          j := j + 1;
        }
        assert c.phones[..j] == c.phones;
        SearchInStep(vs, i, query, named);
        i := i + 1;
      }
      assert vs[..i] == vs;
    }
  }
}
