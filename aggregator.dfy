/** The unhandled-element aggregator of markdown/cli.ts: `toCountMap`, the
    descending sort by count, the `"<label> (<count>)"` formatting and the
    report block pushed for one document. */
module Aggregator {
  import opened Wrappers
  import opened Decimal

  /** One `[label, count]` pair of `Array.from(countMap)`. */
  datatype Entry = Entry(key: string, count: nat)

  predicate NoDup<T(==)>(s: seq<T>)
  {
    forall i, j :: 0 <= i < j < |s| ==> s[i] != s[j]
  }

  // ---------------------------------------------------------------------
  // Counting

  /** Number of times `k` occurs in `s`. */
  function Occurrences(s: seq<string>, k: string): (n: nat)
    ensures n <= |s|
    ensures n > 0 <==> k in s
  {
    if s == [] then 0
    else
      assert s == s[..|s| - 1] + [s[|s| - 1]];
      Occurrences(s[..|s| - 1], k) + (if s[|s| - 1] == k then 1 else 0)
  }

  /** The distinct labels of `s` in order of first occurrence: the key order
      of a `Map` filled by `set` calls in that order. */
  function Distinct(s: seq<string>): (r: seq<string>)
    ensures NoDup(r)
    ensures forall k :: k in r <==> k in s
  {
    if s == [] then []
    else
      assert s == s[..|s| - 1] + [s[|s| - 1]];
      var p := Distinct(s[..|s| - 1]);
      if s[|s| - 1] in p then p else p + [s[|s| - 1]]
  }

  /** The entry of every key, paired with its number of occurrences in `s`. */
  function EntriesFor(keys: seq<string>, s: seq<string>): (r: seq<Entry>)
    ensures |r| == |keys|
    ensures forall i :: 0 <= i < |keys| ==> r[i] == Entry(keys[i], Occurrences(s, keys[i]))
  {
    if keys == [] then []
    else EntriesFor(keys[..|keys| - 1], s) + [Entry(keys[|keys| - 1], Occurrences(s, keys[|keys| - 1]))]
  }

  /** What `Array.from(toCountMap(s))` holds: each distinct label once, in
      first-seen order, with its number of occurrences. */
  function CountEntries(s: seq<string>): seq<Entry>
  {
    EntriesFor(Distinct(s), s)
  }

  /** `Array.from(map)` for a map whose insertion order is `order`. */
  function FromCountMap(order: seq<string>, counts: map<string, nat>): (r: seq<Entry>)
    requires forall k :: k in order ==> k in counts
    ensures |r| == |order|
  {
    seq(|order|, i requires 0 <= i < |order| => Entry(order[i], counts[order[i]]))
  }

  /** `toCountMap`: one pass over the labels, inserting a new key with 0 the
      first time it is seen and then incrementing it. `order` is the
      insertion order that the JavaScript `Map` keeps and `Array.from`
      reproduces. */
  method ToCountMap(occurrences: seq<string>) returns (order: seq<string>, counts: map<string, nat>)
    ensures forall k :: k in counts <==> k in occurrences
    ensures forall k :: k in counts ==> counts[k] == Occurrences(occurrences, k)
    ensures order == Distinct(occurrences)
    ensures FromCountMap(order, counts) == CountEntries(occurrences)
  {
    order, counts := [], map[];
    var i := 0;
    while i < |occurrences|
      invariant 0 <= i <= |occurrences|
      invariant order == Distinct(occurrences[..i])
      invariant forall k :: k in counts <==> k in occurrences[..i]
      invariant forall k :: k in counts ==> counts[k] == Occurrences(occurrences[..i], k)
    {
      var key := occurrences[i];
      assert occurrences[..i + 1][..i] == occurrences[..i];
      if key !in counts {
        counts := counts[key := 0];
        order := order + [key];
      }
      counts := counts[key := counts[key] + 1];
      i := i + 1;
    }
    assert occurrences[..i] == occurrences;
    var entries := FromCountMap(order, counts);
    assert forall j :: 0 <= j < |order| ==> entries[j] == CountEntries(occurrences)[j];
  }

  // ---------------------------------------------------------------------
  // Totals

  function SumCounts(es: seq<Entry>): nat
  {
    if es == [] then 0 else es[0].count + SumCounts(es[1..])
  }

  lemma {:induction false} SumCountsAppend(a: seq<Entry>, b: seq<Entry>)
    ensures SumCounts(a + b) == SumCounts(a) + SumCounts(b)
  {
    if a != [] {
      SumCountsAppend(a[1..], b);
      assert (a + b)[1..] == a[1..] + b;
    } else {
      assert a + b == b;
    }
  }

  /** Adding one more label `x` to the counted list adds one to the total of
      the entries of `keys` exactly when `x` is one of those keys. */
  lemma {:induction false} SumEntriesSnoc(keys: seq<string>, s: seq<string>, x: string)
    requires NoDup(keys)
    ensures SumCounts(EntriesFor(keys, s + [x])) == SumCounts(EntriesFor(keys, s)) + (if x in keys then 1 else 0)
  {
    if keys != [] {
      var n := |keys| - 1;
      var k := keys[n];
      assert (s + [x])[..|s|] == s;
      assert Occurrences(s + [x], k) == Occurrences(s, k) + (if x == k then 1 else 0);
      SumEntriesSnoc(keys[..n], s, x);
      SumCountsAppend(EntriesFor(keys[..n], s + [x]), [Entry(k, Occurrences(s + [x], k))]);
      SumCountsAppend(EntriesFor(keys[..n], s), [Entry(k, Occurrences(s, k))]);
      assert keys == keys[..n] + [k];
      assert x in keys <==> x in keys[..n] || x == k;
      assert !(x in keys[..n] && x == k);
    }
  }

  /** The counts of `toCountMap(s)` add up to the number of labels in `s`. */
  lemma {:induction false} CountEntriesSum(s: seq<string>)
    ensures SumCounts(CountEntries(s)) == |s|
  {
    if s != [] {
      var p, x := s[..|s| - 1], s[|s| - 1];
      assert s == p + [x];
      CountEntriesSum(p);
      var d := Distinct(p);
      SumEntriesSnoc(d, p, x);
      if x !in p {
        assert Distinct(s) == d + [x];
        assert Occurrences(p, x) == 0;
        assert EntriesFor(d + [x], s) == EntriesFor(d, s) + [Entry(x, Occurrences(s, x))] by {
          assert (d + [x])[..|d|] == d;
        }
        SumCountsAppend(EntriesFor(d, s), [Entry(x, Occurrences(s, x))]);
      }
    }
  }

  // ---------------------------------------------------------------------
  // Sorting by count

  predicate NonIncreasing(es: seq<Entry>)
  {
    forall i, j :: 0 <= i < j < |es| ==> es[i].count >= es[j].count
  }

  /** The comparator of the sort: negative, so that `a` goes first, exactly
      when `a` has the larger count. It never returns 0 and says `1` for
      equal counts in both argument orders, so it fixes no order on ties. */
  function CompareByCount(a: Entry, b: Entry): int
  {
    if a.count > b.count then -1 else 1
  }

  /** Insert `e` into a list already ordered by the comparator: `e` goes in
      front of the first element it compares below 0 with. */
  function InsertByCount(e: Entry, sorted: seq<Entry>): (r: seq<Entry>)
    ensures multiset(r) == multiset(sorted) + multiset{e}
  {
    if sorted == [] then [e]
    else if CompareByCount(e, sorted[0]) < 0 then [e] + sorted
    else
      assert sorted == [sorted[0]] + sorted[1..];
      [sorted[0]] + InsertByCount(e, sorted[1..])
  }

  /** The elements of an insertion are `e` and the elements of the list. */
  lemma InsertByCountElements(e: Entry, sorted: seq<Entry>, x: Entry)
    ensures x in InsertByCount(e, sorted) <==> x == e || x in sorted
  {
    var r := InsertByCount(e, sorted);
    assert x in r <==> x in multiset(r);
    assert x in sorted <==> x in multiset(sorted);
  }

  /** Insertion keeps a list ordered by non-increasing count. */
  lemma {:induction false} InsertByCountOrdered(e: Entry, sorted: seq<Entry>)
    requires NonIncreasing(sorted)
    ensures NonIncreasing(InsertByCount(e, sorted))
  {
    if sorted != [] && CompareByCount(e, sorted[0]) >= 0 {
      var rest := InsertByCount(e, sorted[1..]);
      InsertByCountOrdered(e, sorted[1..]);
      forall j | 0 <= j < |rest| ensures rest[j].count <= sorted[0].count {
        InsertByCountElements(e, sorted[1..], rest[j]);
      }
    }
  }

  /** Insertion adds the count of `e` to the total. */
  lemma {:induction false} InsertByCountSum(e: Entry, sorted: seq<Entry>)
    ensures SumCounts(InsertByCount(e, sorted)) == SumCounts(sorted) + e.count
  {
    if sorted != [] && CompareByCount(e, sorted[0]) >= 0 {
      InsertByCountSum(e, sorted[1..]);
      assert ([sorted[0]] + InsertByCount(e, sorted[1..]))[1..] == InsertByCount(e, sorted[1..]);
    }
  }

  /** Inserting an entry that is not in a duplicate-free list leaves it
      duplicate-free. */
  lemma {:induction false} InsertByCountNoDup(e: Entry, sorted: seq<Entry>)
    requires NoDup(sorted) && e !in sorted
    ensures NoDup(InsertByCount(e, sorted))
  {
    if sorted != [] {
      if CompareByCount(e, sorted[0]) >= 0 {
        var rest := InsertByCount(e, sorted[1..]);
        InsertByCountNoDup(e, sorted[1..]);
        InsertByCountElements(e, sorted[1..], sorted[0]);
        assert sorted[0] !in rest;
      }
    }
  }

  /** `Array.prototype.sort` with `CompareByCount`, as an insertion sort.
      Only the order by count and the permutation are promised: the order
      among entries with equal counts is not. */
  function SortByCount(es: seq<Entry>): (r: seq<Entry>)
    ensures multiset(r) == multiset(es)
  {
    if es == [] then []
    else
      assert es == [es[0]] + es[1..];
      InsertByCount(es[0], SortByCount(es[1..]))
  }

  /** The sorted list is ordered by non-increasing count. */
  lemma {:induction false} SortByCountOrdered(es: seq<Entry>)
    ensures NonIncreasing(SortByCount(es))
  {
    if es != [] {
      SortByCountOrdered(es[1..]);
      InsertByCountOrdered(es[0], SortByCount(es[1..]));
    }
  }

  /** Sorting keeps the total of the counts. */
  lemma {:induction false} SortByCountSum(es: seq<Entry>)
    ensures SumCounts(SortByCount(es)) == SumCounts(es)
  {
    if es != [] {
      SortByCountSum(es[1..]);
      InsertByCountSum(es[0], SortByCount(es[1..]));
    }
  }

  /** Sorting a duplicate-free list gives a duplicate-free list. */
  lemma {:induction false} SortByCountNoDup(es: seq<Entry>)
    requires NoDup(es)
    ensures NoDup(SortByCount(es))
  {
    if es != [] {
      var rest := SortByCount(es[1..]);
      assert es == [es[0]] + es[1..];
      SortByCountNoDup(es[1..]);
      assert es[0] !in es[1..];
      assert es[0] !in multiset(es[1..]);
      assert es[0] !in rest;
      InsertByCountNoDup(es[0], rest);
    }
  }

  // ---------------------------------------------------------------------
  // Formatting and reading back one report line

  /** `${key} (${count})`. */
  function FormatLine(e: Entry): string
  {
    e.key + " (" + NatToDecimal(e.count) + ")"
  }

  /** `.map(([key, count]) => ...)` over the sorted entries. */
  function FormatLines(es: seq<Entry>): (r: seq<string>)
    ensures |r| == |es|
  {
    seq(|es|, i requires 0 <= i < |es| => FormatLine(es[i]))
  }

  /** The longest run of digits at the end of `s`. */
  function TrailingDigits(s: string): (r: string)
    ensures AllDigits(r) && |r| <= |s| && r == s[|s| - |r|..]
  {
    if s != [] && IsDigit(s[|s| - 1]) then TrailingDigits(s[..|s| - 1]) + [s[|s| - 1]] else []
  }

  /** Read a report line `"<label> (<count>)"` back into its entry, taking
      the count from the end of the line so that a label may itself hold
      parentheses or digits. */
  function ParseLine(line: string): Option<Entry>
  {
    if |line| == 0 || line[|line| - 1] != ')' then None
    else
      var body := line[..|line| - 1];
      var digits := TrailingDigits(body);
      var head := body[..|body| - |digits|];
      if |digits| == 0 || |head| < 2 || head[|head| - 2..] != " (" then None
      else Some(Entry(head[..|head| - 2], DecimalToNat(digits)))
  }

  lemma {:induction false} TrailingDigitsAfter(p: string, d: string)
    requires |p| > 0 && !IsDigit(p[|p| - 1]) && AllDigits(d)
    ensures TrailingDigits(p + d) == d
  {
    if d == [] {
      assert p + d == p;
    } else {
      var n := |d| - 1;
      TrailingDigitsAfter(p, d[..n]);
      assert (p + d)[..|p + d| - 1] == p + d[..n];
      assert d == d[..n] + [d[n]];
    }
  }

  /** A formatted report line reads back as the entry it was made from. */
  lemma ParseFormatLine(e: Entry)
    ensures ParseLine(FormatLine(e)) == Some(e)
  {
    var digits := NatToDecimal(e.count);
    var head := e.key + " (";
    var line := FormatLine(e);
    assert line == head + digits + ")";
    assert line[..|line| - 1] == head + digits;
    TrailingDigitsAfter(head, digits);
    assert (head + digits)[..|head + digits| - |digits|] == head;
    assert head[..|head| - 2] == e.key;
    DecimalRoundTrip(e.count);
  }

  /** The count a report line shows, 0 for a line that is not a count line. */
  function PrintedCount(line: string): nat
  {
    match ParseLine(line)
    case Some(e) => e.count
    case None => 0
  }

  function PrintedSum(lines: seq<string>): nat
  {
    if lines == [] then 0 else PrintedCount(lines[0]) + PrintedSum(lines[1..])
  }

  /** The counts shown by the formatted lines add up to the entries' total. */
  lemma {:induction false} PrintedSumOfFormatted(es: seq<Entry>)
    ensures PrintedSum(FormatLines(es)) == SumCounts(es)
  {
    if es != [] {
      ParseFormatLine(es[0]);
      PrintedSumOfFormatted(es[1..]);
      assert FormatLines(es)[1..] == FormatLines(es[1..]);
    }
  }

  // ---------------------------------------------------------------------
  // The report block of one document

  /** The lines pushed for a document with unhandled labels: its id, one
      count line per distinct label by non-increasing count, and "". */
  function ReportBlock(url: string, unhandled: seq<string>): seq<string>
  {
    [url] + FormatLines(SortByCount(CountEntries(unhandled))) + [""]
  }

  /** The sorted entries list every distinct label once, with its number of
      occurrences, by non-increasing count, and add up to the label count. */
  lemma SortedCountsMeaning(u: seq<string>)
    ensures var es := SortByCount(CountEntries(u));
      && |es| == |Distinct(u)|
      && (forall i :: 0 <= i < |es| ==> es[i].key in u && es[i].count == Occurrences(u, es[i].key))
      && (forall i, j :: 0 <= i < j < |es| ==> es[i].key != es[j].key)
      && NonIncreasing(es)
      && (forall k :: k in u ==> exists i :: 0 <= i < |es| && es[i].key == k)
      && SumCounts(es) == |u|
  {
    var entries := CountEntries(u);
    var d := Distinct(u);
    var es := SortByCount(entries);
    CountEntriesSum(u);
    SortByCountOrdered(entries);
    SortByCountSum(entries);
    assert |es| == |multiset(es)| == |multiset(entries)| == |entries|;
    assert NoDup(entries) by {
      forall i, j | 0 <= i < j < |entries| ensures entries[i] != entries[j] {
        assert entries[i].key == d[i] && entries[j].key == d[j];
      }
    }
    SortByCountNoDup(entries);
    forall i | 0 <= i < |es|
      ensures es[i].key in u && es[i].count == Occurrences(u, es[i].key)
    {
      assert es[i] in multiset(entries);
      var j :| 0 <= j < |entries| && entries[j] == es[i];
      assert entries[j] == Entry(d[j], Occurrences(u, d[j]));
    }
    forall i, j | 0 <= i < j < |es| ensures es[i].key != es[j].key {
      assert es[i] != es[j];
    }
    forall k | k in u ensures exists i :: 0 <= i < |es| && es[i].key == k {
      var j :| 0 <= j < |d| && d[j] == k;
      assert entries[j] in multiset(es);
      var i :| 0 <= i < |es| && es[i] == entries[j];
      assert es[i].key == k;
    }
  }

  /** Each count line of a report block reads back as the sorted entry it
      was formatted from. */
  lemma ReportBlockLines(url: string, u: seq<string>)
    ensures var es := SortByCount(CountEntries(u));
      var b := ReportBlock(url, u);
      && |b| == |es| + 2 && b[0] == url && b[|b| - 1] == ""
      && forall i :: 1 <= i < |b| - 1 ==> ParseLine(b[i]) == Some(es[i - 1])
  {
    FormattedBlock(url, SortByCount(CountEntries(u)));
  }

  /** A block of formatted entries between an id line and an empty line
      reads back as those entries. */
  lemma FormattedBlock(url: string, es: seq<Entry>)
    ensures var b := [url] + FormatLines(es) + [""];
      && |b| == |es| + 2 && b[0] == url && b[|b| - 1] == ""
      && forall i :: 1 <= i < |b| - 1 ==> ParseLine(b[i]) == Some(es[i - 1])
  {
    var b := [url] + FormatLines(es) + [""];
    forall i | 1 <= i < |b| - 1 ensures ParseLine(b[i]) == Some(es[i - 1]) {
      assert b[i] == FormatLine(es[i - 1]);
      ParseFormatLine(es[i - 1]);
    }
  }

  /** Read back, a report block is the document id, then one line per
      distinct unhandled label giving its number of occurrences, with counts
      non-increasing down the block, then an empty line. */
  lemma ReportBlockMeaning(url: string, u: seq<string>)
    ensures var b := ReportBlock(url, u);
      && |b| == |Distinct(u)| + 2 && b[0] == url && b[|b| - 1] == ""
      && (forall i :: 1 <= i < |b| - 1 ==>
            && ParseLine(b[i]).Some?
            && ParseLine(b[i]).value.key in u
            && ParseLine(b[i]).value.count == Occurrences(u, ParseLine(b[i]).value.key))
      && (forall i, j :: 1 <= i < j < |b| - 1 ==>
            && ParseLine(b[i]).value.key != ParseLine(b[j]).value.key
            && ParseLine(b[i]).value.count >= ParseLine(b[j]).value.count)
      && (forall k :: k in u ==> exists i :: 1 <= i < |b| - 1 && ParseLine(b[i]).value.key == k)
  {
    SortedCountsMeaning(u);
    ReadBackBlock(url, SortByCount(CountEntries(u)), u);
  }

  /** A block formatted from entries that count the labels of `u`, each once
      and by non-increasing count, reads back as such. */
  lemma ReadBackBlock(url: string, es: seq<Entry>, u: seq<string>)
    requires |es| == |Distinct(u)|
    requires forall i :: 0 <= i < |es| ==> es[i].key in u && es[i].count == Occurrences(u, es[i].key)
    requires forall i, j :: 0 <= i < j < |es| ==> es[i].key != es[j].key
    requires NonIncreasing(es)
    requires forall k :: k in u ==> exists i :: 0 <= i < |es| && es[i].key == k
    ensures var b := [url] + FormatLines(es) + [""];
      && |b| == |Distinct(u)| + 2 && b[0] == url && b[|b| - 1] == ""
      && (forall i :: 1 <= i < |b| - 1 ==>
            && ParseLine(b[i]).Some?
            && ParseLine(b[i]).value.key in u
            && ParseLine(b[i]).value.count == Occurrences(u, ParseLine(b[i]).value.key))
      && (forall i, j :: 1 <= i < j < |b| - 1 ==>
            && ParseLine(b[i]).value.key != ParseLine(b[j]).value.key
            && ParseLine(b[i]).value.count >= ParseLine(b[j]).value.count)
      && (forall k :: k in u ==> exists i :: 1 <= i < |b| - 1 && ParseLine(b[i]).value.key == k)
  {
    var b := [url] + FormatLines(es) + [""];
    FormattedBlock(url, es);
    forall i | 1 <= i < |b| - 1
      ensures ParseLine(b[i]).Some? && ParseLine(b[i]).value.key in u
      ensures ParseLine(b[i]).value.count == Occurrences(u, ParseLine(b[i]).value.key)
    {
      assert ParseLine(b[i]) == Some(es[i - 1]);
    }
    forall i, j | 1 <= i < j < |b| - 1
      ensures ParseLine(b[i]).value.key != ParseLine(b[j]).value.key
      ensures ParseLine(b[i]).value.count >= ParseLine(b[j]).value.count
    {
      assert ParseLine(b[i]) == Some(es[i - 1]) && ParseLine(b[j]) == Some(es[j - 1]);
    }
    forall k | k in u ensures exists i :: 1 <= i < |b| - 1 && ParseLine(b[i]).value.key == k {
      var j :| 0 <= j < |es| && es[j].key == k;
      assert ParseLine(b[j + 1]) == Some(es[j]);
    }
  }

  /** The counts shown in a document's block add up to its number of
      unhandled labels. */
  lemma ReportBlockPrintedSum(url: string, u: seq<string>)
    ensures var b := ReportBlock(url, u);
      |b| >= 2 && PrintedSum(b[1..|b| - 1]) == |u|
  {
    var es := SortByCount(CountEntries(u));
    var b := ReportBlock(url, u);
    assert b[1..|b| - 1] == FormatLines(es);
    PrintedSumOfFormatted(es);
    CountEntriesSum(u);
    SortByCountSum(CountEntries(u));
  }
}
