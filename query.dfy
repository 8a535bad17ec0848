/** The read-only queries of the web layer over the extracted records
    (app.py: `get_images_data` and `get_dates`). The metadata file is
    modelled as the record sequence it holds, or `None` when it does not exist. */
module Query {
  import opened Outcomes
  import Extract

  type Record = Extract.ImageRecord

  /** `[img for img in data if img.get('date') == f]`. */
  function WithDate(data: seq<Record>, f: string): (r: seq<Record>)
    ensures |r| <= |data|
    ensures forall x :: x in r ==> x.date == f && x in data
  {
    if |data| == 0 then []
    else (if data[0].date == f then [data[0]] else []) + WithDate(data[1..], f)
  }

  /** Filtering keeps exactly the records with that date, as many times as
      they occur. */
  lemma {:induction false} WithDateCount(data: seq<Record>, f: string, x: Record)
    ensures multiset(WithDate(data, f))[x] == if x.date == f then multiset(data)[x] else 0
  {
    if |data| > 0 {
      WithDateCount(data[1..], f, x);
      assert data == [data[0]] + data[1..];
    }
  }

  /** Filtering preserves the original order: it distributes over concatenation. */
  lemma {:induction false} WithDateAppend(a: seq<Record>, b: seq<Record>, f: string)
    ensures WithDate(a + b, f) == WithDate(a, f) + WithDate(b, f)
  {
    if |a| > 0 {
      assert (a + b)[1..] == a[1..] + b;
      WithDateAppend(a[1..], b, f);
    } else {
      assert a + b == b;
    }
  }

  /** `get_images_data`: an empty list when the file is missing, every
      record when the filter is absent or empty, and otherwise the records
      whose date equals the filter. */
  function ImagesData(file: Option<seq<Record>>, dateFilter: Option<string>): (r: seq<Record>)
    ensures file.None? ==> r == []
    ensures file.Some? && (dateFilter.None? || dateFilter.value == "") ==> r == file.value
    ensures file.Some? && dateFilter.Some? && dateFilter.value != "" ==>
      forall x :: multiset(r)[x] == if x.date == dateFilter.value then multiset(file.value)[x] else 0
  {
    match file
    case None => []
    case Some(data) =>
      if dateFilter.Some? && dateFilter.value != "" then
        var r := WithDate(data, dateFilter.value);
        assert forall x :: multiset(r)[x] == if x.date == dateFilter.value then multiset(data)[x] else 0 by {
          forall x ensures multiset(r)[x] == if x.date == dateFilter.value then multiset(data)[x] else 0 {
            WithDateCount(data, dateFilter.value, x);
          }
        }
        r
      else data
  }

  /** Python's `a < b` on strings: code point by code point, a proper prefix
      being smaller. */
  predicate Below(a: string, b: string)
    ensures Below(a, b) ==> a != b
    ensures |a| < |b| && a == b[..|a|] ==> Below(a, b)
  {
    if |a| == 0 then |b| > 0
    else if |b| == 0 then false
    else a[0] < b[0] || (a[0] == b[0] && Below(a[1..], b[1..]))
  }

  lemma {:induction false} BelowIrreflexive(a: string)
    ensures !Below(a, a)
  {
    if |a| > 0 {
      BelowIrreflexive(a[1..]);
    }
  }

  lemma {:induction false} BelowTransitive(a: string, b: string, c: string)
    requires Below(a, b) && Below(b, c)
    ensures Below(a, c)
  {
    if |a| > 0 && |b| > 0 && |c| > 0 && a[0] == b[0] && b[0] == c[0] {
      BelowTransitive(a[1..], b[1..], c[1..]);
    }
  }

  lemma {:induction false} BelowTotal(a: string, b: string)
    requires a != b
    ensures Below(a, b) || Below(b, a)
  {
    if |a| > 0 && |b| > 0 && a[0] == b[0] {
      assert a == [a[0]] + a[1..] && b == [b[0]] + b[1..];
      BelowTotal(a[1..], b[1..]);
    }
  }

  lemma {:induction false} BelowAsymmetric(a: string, b: string)
    requires Below(a, b)
    ensures !Below(b, a)
  {
    if |a| > 0 && |b| > 0 && a[0] == b[0] {
      BelowAsymmetric(a[1..], b[1..]);
    }
  }

  predicate StrictlySorted(s: seq<string>)
  {
    forall i, j :: 0 <= i < j < |s| ==> Below(s[i], s[j])
  }

  /** Inserts `x` into a strictly sorted list unless it is already there. */
  function Insert(s: seq<string>, x: string): (r: seq<string>)
    requires StrictlySorted(s)
    ensures StrictlySorted(r)
    ensures forall y :: y in r <==> y in s || y == x
  {
    if |s| == 0 then [x]
    else if x == s[0] then s
    else if Below(x, s[0]) then
      assert forall j :: 0 <= j < |s| ==> Below(x, s[j]) by {
        forall j | 0 <= j < |s| ensures Below(x, s[j]) {
          if j > 0 { BelowTransitive(x, s[0], s[j]); }
        }
      }
      [x] + s
    else
      var rest := Insert(s[1..], x);
      BelowTotal(x, s[0]);
      assert forall y :: y in rest ==> Below(s[0], y) by {
        forall y | y in rest ensures Below(s[0], y) {
          if y in s[1..] {
            var j :| 0 <= j < |s[1..]| && s[1..][j] == y;
            assert s[j + 1] == y;
          }
        }
      }
      assert forall j :: 0 < j < |[s[0]] + rest| ==> ([s[0]] + rest)[j] == rest[j - 1];
      assert forall y :: y in s <==> y == s[0] || y in s[1..] by {
        assert s == [s[0]] + s[1..];
      }
      [s[0]] + rest
  }

  /** The sorted distinct non-empty dates of the records. */
  function DistinctDates(data: seq<Record>): (r: seq<string>)
    ensures StrictlySorted(r)
    ensures forall d :: d in r <==> d != "" && exists i :: 0 <= i < |data| && data[i].date == d
  {
    if |data| == 0 then []
    else
      var n := |data| - 1;
      var init := DistinctDates(data[..n]);
      assert forall i :: 0 <= i < n ==> data[..n][i] == data[i];
      if data[n].date != "" then Insert(init, data[n].date) else init
  }

  /** `get_dates`: the sorted distinct non-empty dates, or an empty list when
      the file is missing. */
  function Dates(file: Option<seq<Record>>): (r: seq<string>)
    ensures StrictlySorted(r)
    ensures forall d :: d in r <==> file.Some? && d != "" && exists i :: 0 <= i < |file.value| && file.value[i].date == d
  {
    match file
    case None => []
    case Some(data) => DistinctDates(data)
  }

  /** A strictly sorted list is determined by its elements, so the dates
      list is the one `sorted(set(...))` gives. */
  lemma {:induction false} SortedUnique(a: seq<string>, b: seq<string>)
    requires StrictlySorted(a) && StrictlySorted(b)
    requires forall y :: y in a <==> y in b
    ensures a == b
  {
    if |a| > 0 {
      assert a[0] in b;
    }
    if |b| > 0 {
      assert b[0] in a;
    }
    if |a| > 0 && |b| > 0 {
      if a[0] != b[0] {
        assert a[0] in b && b[0] in a;
        var i :| 0 <= i < |b| && b[i] == a[0];
        var j :| 0 <= j < |a| && a[j] == b[0];
        assert i > 0 && j > 0;
        BelowAsymmetric(a[0], a[j]);
      }
      forall y ensures y in a[1..] <==> y in b[1..] {
        if y in a[1..] {
          var i :| 0 <= i < |a[1..]| && a[1..][i] == y;
          assert Below(a[0], y);
          BelowIrreflexive(y);
          assert y in b && y != b[0];
          assert b == [b[0]] + b[1..];
        }
        if y in b[1..] {
          var i :| 0 <= i < |b[1..]| && b[1..][i] == y;
          assert Below(b[0], y);
          BelowIrreflexive(y);
          assert y in a && y != a[0];
          assert a == [a[0]] + a[1..];
        }
      }
      SortedUnique(a[1..], b[1..]);
      assert a == [a[0]] + a[1..] && b == [b[0]] + b[1..];
    }
  }

  /** The order is that of the strings, not of the calendar: 2 August 2025
      comes before 15 July 2025. */
  lemma DatesNotChronological(later: string, earlier: string)
    requires later == "02/08/2025" && earlier == "15/07/2025"
    ensures Below(later, earlier)
  {
    assert later[0] < earlier[0];
  }
}
