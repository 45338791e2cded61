/**
 * The used-code list of libeos-payg/manager.c and its file format: a sorted array of
 * (counter, period) pairs, stored as two bytes each.
 */
module UsedCodes {
  import opened Integers
  import opened Wrappers
  import Codes

  datatype UsedCode = UsedCode(counter: byte, period: byte)

  /** The comparison function handed to the array sort. */
  function Compare(a: UsedCode, b: UsedCode): int {
    if a.counter != b.counter then a.counter - b.counter
    else if a.period != b.period then a.period - b.period
    else 0
  }

  /** By counter and then by period, upwards. */
  lemma ComparesByCounterThenPeriod(a: UsedCode, b: UsedCode)
    ensures Compare(a, b) < 0 <==> a.counter < b.counter || (a.counter == b.counter && a.period < b.period)
    ensures Compare(a, b) == 0 <==> a == b
    ensures Compare(a, b) > 0 <==> Compare(b, a) < 0
  {
  }

  predicate Sorted(s: seq<UsedCode>) {
    forall i, j :: 0 <= i < j < |s| ==> Compare(s[i], s[j]) <= 0
  }

  predicate StrictlySorted(s: seq<UsedCode>) {
    forall i, j :: 0 <= i < j < |s| ==> Compare(s[i], s[j]) < 0
  }

  predicate ValidPeriods(s: seq<UsedCode>) {
    forall i :: 0 <= i < |s| ==> Codes.ValidPeriod(s[i].period)
  }

  /** What the manager holds between calls when every entry was added by it. */
  predicate WellFormed(s: seq<UsedCode>) {
    StrictlySorted(s) && ValidPeriods(s)
  }

  // ----- Sorting -----

  function Insert(x: UsedCode, s: seq<UsedCode>): seq<UsedCode> {
    if s == [] then [x]
    else if Compare(x, s[0]) <= 0 then [x] + s
    else [s[0]] + Insert(x, s[1..])
  }

  /** The array sort of GLib; any other sorting function would do, see SortIsUnique. */
  function Sort(s: seq<UsedCode>): seq<UsedCode> {
    if s == [] then [] else Insert(s[|s| - 1], Sort(s[..|s| - 1]))
  }

  lemma {:induction false} InsertAdds(x: UsedCode, s: seq<UsedCode>)
    ensures multiset(Insert(x, s)) == multiset(s) + multiset{x}
  {
    if s == [] || Compare(x, s[0]) <= 0 {
    } else {
      InsertAdds(x, s[1..]);
      assert s == [s[0]] + s[1..];
    }
  }

  lemma {:induction false} InsertSorts(x: UsedCode, s: seq<UsedCode>)
    requires Sorted(s)
    ensures Sorted(Insert(x, s)) && multiset(Insert(x, s)) == multiset(s) + multiset{x}
  {
    InsertAdds(x, s);
    if s == [] {
    } else if Compare(x, s[0]) <= 0 {
      PrependSorts(x, s);
    } else {
      InsertSorts(x, s[1..]);
      var rest := Insert(x, s[1..]);
      assert rest[0] in multiset(rest);
      assert rest[0] == x || rest[0] in s[1..];
      PrependSorts(s[0], rest);
    }
  }

  lemma PrependSorts(x: UsedCode, s: seq<UsedCode>)
    requires Sorted(s) && (s == [] || Compare(x, s[0]) <= 0)
    ensures Sorted([x] + s) && multiset([x] + s) == multiset(s) + multiset{x}
  {
    var t := [x] + s;
    forall i, j | 0 <= i < j < |t|
      ensures Compare(t[i], t[j]) <= 0
    {
      assert t[j] == s[j - 1];
      if i > 0 {
        assert t[i] == s[i - 1];
      }
    }
  }

  lemma {:induction false} SortSorts(s: seq<UsedCode>)
    ensures Sorted(Sort(s)) && multiset(Sort(s)) == multiset(s)
  {
    if s == [] {
    } else {
      SortSorts(s[..|s| - 1]);
      InsertSorts(s[|s| - 1], Sort(s[..|s| - 1]));
      assert s == s[..|s| - 1] + [s[|s| - 1]];
    }
  }

  /** Sorting has one possible result, whatever the algorithm. */
  lemma {:induction false} SortIsUnique(s: seq<UsedCode>, t: seq<UsedCode>)
    requires Sorted(s) && Sorted(t) && multiset(s) == multiset(t)
    ensures s == t
  {
    assert |multiset(s)| == |s| && |multiset(t)| == |t|;
    if s == [] {
    } else {
      FirstIsLeast(s, t);
      FirstIsLeast(t, s);
      assert s[0] == t[0];
      assert s == [s[0]] + s[1..] && t == [t[0]] + t[1..];
      assert multiset(s[1..]) == multiset(s) - multiset{s[0]};
      assert multiset(t[1..]) == multiset(t) - multiset{t[0]};
      SortIsUnique(s[1..], t[1..]);
    }
  }

  lemma FirstIsLeast(s: seq<UsedCode>, t: seq<UsedCode>)
    requires Sorted(s) && s != [] && t != [] && multiset(s) == multiset(t)
    ensures Compare(s[0], t[0]) <= 0
  {
    assert t[0] in multiset(s);
    var j :| 0 <= j < |s| && s[j] == t[0];
  }

  lemma SortedStaysPut(s: seq<UsedCode>)
    requires Sorted(s)
    ensures Sort(s) == s
  {
    SortSorts(s);
    SortIsUnique(Sort(s), s);
  }

  // ----- Appending an unused code -----

  function Appended(s: seq<UsedCode>, x: UsedCode): seq<UsedCode> {
    Sort(s + [x])
  }

  /** The list stays strictly sorted, gains exactly the new pair and loses none. */
  lemma AppendKeepsOrder(s: seq<UsedCode>, x: UsedCode)
    requires WellFormed(s) && x !in s && Codes.ValidPeriod(x.period)
    ensures WellFormed(Appended(s, x))
    ensures multiset(Appended(s, x)) == multiset(s) + multiset{x}
    ensures forall y :: y in Appended(s, x) <==> y in s || y == x
    ensures Appended(s, x) == Insert(x, s)
  {
    AppendInserts(s, x);
    InsertSorts(x, s);
    SameMembers(Appended(s, x), s, x);
    StrictlySortedCountsOnce(s);
    assert multiset(s)[x] == 0;
    OnceIsStrict(Appended(s, x));
  }

  lemma SameMembers(t: seq<UsedCode>, s: seq<UsedCode>, x: UsedCode)
    requires multiset(t) == multiset(s) + multiset{x}
    ensures forall y :: y in t <==> y in s || y == x
    ensures ValidPeriods(s) && Codes.ValidPeriod(x.period) ==> ValidPeriods(t)
  {
    assert forall y :: y in t <==> y in multiset(t);
    assert forall y :: y in s <==> y in multiset(s);
    forall i | ValidPeriods(s) && Codes.ValidPeriod(x.period) && 0 <= i < |t|
      ensures Codes.ValidPeriod(t[i].period)
    {
      assert t[i] in t;
    }
  }

  lemma OnceIsStrict(t: seq<UsedCode>)
    requires Sorted(t) && forall y :: multiset(t)[y] <= 1
    ensures StrictlySorted(t)
  {
    forall i, j | 0 <= i < j < |t|
      ensures Compare(t[i], t[j]) < 0
    {
      if Compare(t[i], t[j]) == 0 {
        TwiceCounted(t, i, j);
        assert false;
      }
    }
  }

  lemma AppendInserts(s: seq<UsedCode>, x: UsedCode)
    requires Sorted(s)
    ensures Appended(s, x) == Insert(x, s)
  {
    assert (s + [x])[..|s|] == s;
    SortedStaysPut(s);
  }

  lemma TwiceCounted(s: seq<UsedCode>, i: nat, j: nat)
    requires i < j < |s| && s[i] == s[j]
    ensures multiset(s)[s[i]] >= 2
  {
    assert s == s[..j] + [s[j]] + s[j + 1..];
    assert s[..j][i] in multiset(s[..j]);
  }

  lemma {:induction false} StrictlySortedCountsOnce(s: seq<UsedCode>)
    requires StrictlySorted(s)
    ensures forall y :: multiset(s)[y] <= 1
  {
    if s == [] {
    } else {
      var init, last := s[..|s| - 1], s[|s| - 1];
      StrictlySortedCountsOnce(init);
      assert s == init + [last];
      assert last !in init;
    }
  }

  // ----- The file -----

  datatype FileError = WrongLength | UnknownPeriod

  function Encode(s: seq<UsedCode>): seq<byte> {
    if s == [] then [] else [s[0].counter, s[0].period] + Encode(s[1..])
  }

  function Entries(data: seq<byte>): seq<UsedCode>
    requires |data| % 2 == 0
  {
    if data == [] then [] else [UsedCode(data[0], data[1])] + Entries(data[2..])
  }

  lemma {:induction false} EntriesLength(data: seq<byte>)
    requires |data| % 2 == 0
    ensures |Entries(data)| == |data| / 2
  {
    if data == [] {
    } else {
      EntriesLength(data[2..]);
    }
  }

  /** An entry is two bytes, the counter and then the period. */
  lemma {:induction false} EntryAt(data: seq<byte>, i: nat)
    requires |data| % 2 == 0 && i < |data| / 2
    ensures i < |Entries(data)| && Entries(data)[i] == UsedCode(data[2 * i], data[2 * i + 1])
  {
    if i == 0 {
    } else {
      EntryAt(data[2..], i - 1);
    }
  }

  lemma {:induction false} EncodingAt(s: seq<UsedCode>, i: nat)
    requires i < |s|
    ensures |Encode(s)| == 2 * |s|
    ensures Encode(s)[2 * i] == s[i].counter && Encode(s)[2 * i + 1] == s[i].period
  {
    EntriesOfEncoding(s);
    EntryAt(Encode(s), i);
  }

  /** What a load makes of the file; a missing or empty file means an empty list. */
  function Decode(data: seq<byte>): Result<seq<UsedCode>, FileError> {
    if |data| % 2 != 0 then Failure(WrongLength)
    else if !ValidPeriods(Entries(data)) then Failure(UnknownPeriod)
    else Success(Sort(Entries(data)))
  }

  lemma {:induction false} EntriesOfEncoding(s: seq<UsedCode>)
    ensures |Encode(s)| == 2 * |s| && Entries(Encode(s)) == s
  {
    if s == [] {
    } else {
      EntriesOfEncoding(s[1..]);
      assert Encode(s)[2..] == Encode(s[1..]);
    }
  }

  lemma {:induction false} EncodingOfEntries(data: seq<byte>)
    requires |data| % 2 == 0
    ensures Encode(Entries(data)) == data
  {
    if data == [] {
    } else {
      EncodingOfEntries(data[2..]);
      assert Entries(data)[1..] == Entries(data[2..]);
      assert data == [data[0], data[1]] + data[2..];
    }
  }

  /** What is wrong with a file that does not load: half an entry, or else a period that is none. */
  lemma DecodeFailsIff(data: seq<byte>)
    ensures Decode(data) == Failure(WrongLength) <==> |data| % 2 == 1
    ensures Decode(data) == Failure(UnknownPeriod) <==>
            |data| % 2 == 0 && exists i :: 0 <= i < |data| / 2 && 26 <= data[2 * i + 1] && data[2 * i + 1] != 31
  {
    if |data| % 2 == 0 {
      EntriesLength(data);
      forall i | 0 <= i < |data| / 2
        ensures Entries(data)[i].period == data[2 * i + 1]
      {
        EntryAt(data, i);
      }
      if !ValidPeriods(Entries(data)) {
        var i :| 0 <= i < |Entries(data)| && !Codes.ValidPeriod(Entries(data)[i].period);
        assert 26 <= data[2 * i + 1] && data[2 * i + 1] != 31;
      }
      if i :| 0 <= i < |data| / 2 && 26 <= data[2 * i + 1] && data[2 * i + 1] != 31 {
        assert !Codes.ValidPeriod(Entries(data)[i].period);
      }
    }
  }

  /** A list that the manager saved is loaded back unchanged. */
  lemma SavedListReloads(s: seq<UsedCode>)
    requires WellFormed(s)
    ensures Decode(Encode(s)) == Success(s)
  {
    LoadsEncoding(s, s);
  }

  /**
   * Which files load at all: those that are the encoding of some list of valid
   * pairs in any order, and then the list in memory is that one sorted.
   */
  lemma LoadsIffEncoded(data: seq<byte>, s: seq<UsedCode>)
    ensures Decode(data) == Success(s) <==>
            exists t :: Encode(t) == data && ValidPeriods(t) && Sorted(s) && multiset(s) == multiset(t)
  {
    if |data| % 2 == 0 {
      EncodingOfEntries(data);
      SortSorts(Entries(data));
    }
    forall t | Encode(t) == data && ValidPeriods(t) && Sorted(s) && multiset(s) == multiset(t)
      ensures Decode(data) == Success(s)
    {
      LoadsEncoding(t, s);
    }
  }

  lemma LoadsEncoding(t: seq<UsedCode>, s: seq<UsedCode>)
    requires ValidPeriods(t) && Sorted(s) && multiset(s) == multiset(t)
    ensures Decode(Encode(t)) == Success(s)
  {
    EntriesOfEncoding(t);
    LoadsEntries(Encode(t), s);
  }

  lemma LoadsEntries(data: seq<byte>, s: seq<UsedCode>)
    requires |data| % 2 == 0 && ValidPeriods(Entries(data))
    requires Sorted(s) && multiset(s) == multiset(Entries(data))
    ensures Decode(data) == Success(s)
  {
    SortSorts(Entries(data));
    SortIsUnique(Sort(Entries(data)), s);
  }
}
