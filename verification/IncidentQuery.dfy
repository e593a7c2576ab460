/** Listing incidents: the query with numbered placeholders that the repository builds from filters, what a
database makes of it, and what a reader sees who turns its pages. */
module IncidentQuery {
  import opened Placeholders
  import opened Sequences
  import opened Wrappers

  datatype Listed = Listed(id: string, status: string, severity: string, updatedAt: int)

  datatype Filters = Filters(status: seq<string>, severity: seq<string>)

  datatype Column = StatusColumn | SeverityColumn

  /** AND column IN ($k, ...). */
  datatype Clause = InList(column: Column, placeholders: seq<nat>)

  /** The clauses after WHERE and the placeholders of LIMIT and OFFSET. */
  datatype Query = Query(clauses: seq<Clause>, limit: nat, offset: nat)

  datatype Arg = Text(text: string) | Number(n: int)

  // ----- what the database makes of a query -----

  function ColumnOf(row: Listed, column: Column): string {
    match column
    case StatusColumn => row.status
    case SeverityColumn => row.severity
  }

  predicate Holds(c: Clause, args: seq<Arg>, row: Listed) {
    exists i :: 0 <= i < |c.placeholders| && Resolve(args, c.placeholders[i]) == Some(Text(ColumnOf(row, c.column)))
  }

  predicate AllHold(clauses: seq<Clause>, args: seq<Arg>, row: Listed) {
    forall i :: 0 <= i < |clauses| ==> Holds(clauses[i], args, row)
  }

  function Where(rows: seq<Listed>, keep: Listed -> bool): seq<Listed> {
    if rows == [] then []
    else Where(rows[..|rows|-1], keep) + (if keep(rows[|rows|-1]) then [rows[|rows|-1]] else [])
  }

  function Selected(q: Query, args: seq<Arg>, rows: seq<Listed>): seq<Listed> {
    Where(rows, (row: Listed) => AllHold(q.clauses, args, row))
  }

  /** ORDER BY updated_at DESC: any arrangement with the newest first will do. */
  ghost predicate IsListing(rows: seq<Listed>, listing: seq<Listed>) {
    && multiset(listing) == multiset(rows)
    && forall i, j :: 0 <= i < j < |listing| ==> listing[i].updatedAt >= listing[j].updatedAt
  }

  /** LIMIT and OFFSET. */
  function Slice(listing: seq<Listed>, offset: nat, limit: nat): seq<Listed> {
    if offset >= |listing| then []
    else if offset + limit >= |listing| then listing[offset..]
    else listing[offset..offset + limit]
  }

  // ----- building the query -----

  function Numbers(from: nat, n: nat): (r: seq<nat>)
    ensures |r| == n && forall i :: 0 <= i < n ==> r[i] == from + i
  {
    seq(n, i => from + i)
  }

  function Texts(values: seq<string>): (r: seq<Arg>)
    ensures |r| == |values| && forall i :: 0 <= i < |r| ==> r[i] == Text(values[i])
  {
    seq(|values|, i requires 0 <= i < |values| => Text(values[i]))
  }

  function ClauseFor(column: Column, from: nat, values: seq<string>): seq<Clause> {
    if values == [] then [] else [InList(column, Numbers(from, |values|))]
  }

  function PageOf(page: int): (p: int)
    ensures p >= 1
  {
    if page < 1 then 1 else page
  }

  function SizeOf(pageSize: int): (s: int)
    ensures s >= 1
  {
    if pageSize < 1 then 20 else pageSize
  }

  /** The query a database gets, with the arguments of its count query and of its page query. */
  function Built(f: Filters, page: int, pageSize: int): (Query, seq<Arg>, seq<Arg>) {
    var clauses := ClauseFor(StatusColumn, 1, f.status) + ClauseFor(SeverityColumn, 1 + |f.status|, f.severity);
    var filterArgs := Texts(f.status) + Texts(f.severity);
    var n := |filterArgs|;
    (Query(clauses, n + 1, n + 2), filterArgs,
     filterArgs + [Number(SizeOf(pageSize)), Number((PageOf(page) - 1) * SizeOf(pageSize))])
  }

  /** One filter: a clause with a placeholder for every value. */
  method AddFilter(column: Column, values: seq<string>, clauses: seq<Clause>, args: seq<Arg>, argIdx: nat)
    returns (clauses': seq<Clause>, args': seq<Arg>, argIdx': nat)
    ensures clauses' == clauses + ClauseFor(column, argIdx, values)
    ensures args' == args + Texts(values) && argIdx' == argIdx + |values|
  {
    clauses', args', argIdx' := clauses, args, argIdx;
    if |values| > 0 {
      var placeholders := [];
      for i := 0 to |values|
        invariant placeholders == Numbers(argIdx, i)
        invariant args' == args + Texts(values[..i]) && argIdx' == argIdx + i
      {
        placeholders := placeholders + [argIdx'];
        assert Texts(values[..i + 1]) == Texts(values[..i]) + [Text(values[i])];
        args' := args' + [Text(values[i])];
        argIdx' := argIdx' + 1;
      }
      assert values[..|values|] == values;
      clauses' := clauses' + [InList(column, placeholders)];
    } else {
      assert args + Texts(values) == args;
    }
  }

  method BuildQuery(f: Filters, page: int, pageSize: int) returns (q: Query, countArgs: seq<Arg>, args: seq<Arg>)
    ensures (q, countArgs, args) == Built(f, page, pageSize)
    ensures var p, size := if page >= 1 then page else 1, if pageSize >= 1 then pageSize else 20;
            args == countArgs + [Number(size), Number((p - 1) * size)]
  {
    var p := if page < 1 then 1 else page;
    var size := if pageSize < 1 then 20 else pageSize;
    var offset := (p - 1) * size;
    var clauses, argIdx := [], 1;
    args := [];
    clauses, args, argIdx := AddFilter(StatusColumn, f.status, clauses, args, argIdx);
    clauses, args, argIdx := AddFilter(SeverityColumn, f.severity, clauses, args, argIdx);
    assert [] + ClauseFor(StatusColumn, 1, f.status) == ClauseFor(StatusColumn, 1, f.status);
    assert [] + Texts(f.status) == Texts(f.status);
    countArgs := args;
    q := Query(clauses, argIdx, argIdx + 1);
    args := args + [Number(size), Number(offset)];
  }

  // ----- the query means its filters -----

  /** An empty filter lets everything pass. */
  predicate Passes(f: Filters, row: Listed) {
    (f.status == [] || row.status in f.status) && (f.severity == [] || row.severity in f.severity)
  }

  lemma ClauseMeans(column: Column, before: seq<Arg>, values: seq<string>, after: seq<Arg>, row: Listed)
    ensures AllHold(ClauseFor(column, 1 + |before|, values), before + Texts(values) + after, row)
            <==> values == [] || ColumnOf(row, column) in values
  {
    var args := before + Texts(values) + after;
    if values != [] {
      var clause := InList(column, Numbers(1 + |before|, |values|));
      forall i | 0 <= i < |values| ensures Resolve(args, clause.placeholders[i]) == Some(Text(values[i])) {
        assert args[|before| + i] == Text(values[i]);
      }
      assert Holds(clause, args, row) <==> ColumnOf(row, column) in values;
      assert ClauseFor(column, 1 + |before|, values)[0] == clause;
    }
  }

  lemma AllHoldConcat(a: seq<Clause>, b: seq<Clause>, args: seq<Arg>, row: Listed)
    ensures AllHold(a + b, args, row) <==> AllHold(a, args, row) && AllHold(b, args, row)
  {
    hide Holds;
    if AllHold(a + b, args, row) {
      forall i | 0 <= i < |a| ensures Holds(a[i], args, row) {
        assert (a + b)[i] == a[i];
      }
      forall i | 0 <= i < |b| ensures Holds(b[i], args, row) {
        assert (a + b)[|a| + i] == b[i];
      }
    }
  }

  /** The clauses mean the filters, with the count query's arguments as with the page query's. */
  lemma ClausesMeanFilters(f: Filters, page: int, pageSize: int, row: Listed)
    ensures var (q, countArgs, args) := Built(f, page, pageSize);
            && (AllHold(q.clauses, countArgs, row) <==> AllHold(q.clauses, args, row))
            && (AllHold(q.clauses, args, row)
                <==> (f.status == [] || row.status in f.status) && (f.severity == [] || row.severity in f.severity))
  {
    hide AllHold;
    var (q, countArgs, args) := Built(f, page, pageSize);
    FiltersMean(f, [], row);
    FiltersMean(f, [Number(SizeOf(pageSize)), Number((PageOf(page) - 1) * SizeOf(pageSize))], row);
    assert countArgs + [] == countArgs;
  }

  lemma FiltersMean(f: Filters, rest: seq<Arg>, row: Listed)
    ensures var clauses := ClauseFor(StatusColumn, 1, f.status) + ClauseFor(SeverityColumn, 1 + |f.status|, f.severity);
            AllHold(clauses, Texts(f.status) + Texts(f.severity) + rest, row) <==> Passes(f, row)
  {
    hide AllHold;
    var statuses, severities := Texts(f.status), Texts(f.severity);
    var args := statuses + severities + rest;
    AllHoldConcat(ClauseFor(StatusColumn, 1, f.status), ClauseFor(SeverityColumn, 1 + |f.status|, f.severity), args, row);
    ClauseMeans(StatusColumn, [], f.status, severities + rest, row);
    assert [] + statuses + (severities + rest) == args;
    ClauseMeans(SeverityColumn, statuses, f.severity, rest, row);
  }

  /** All placeholders of a query in the order of its text. */
  function Named(clauses: seq<Clause>): seq<nat> {
    if clauses == [] then [] else Named(clauses[..|clauses|-1]) + clauses[|clauses|-1].placeholders
  }

  lemma NamedConcat(a: seq<Clause>, c: Clause)
    ensures Named(a + [c]) == Named(a) + c.placeholders
  {
    assert (a + [c])[..|a|] == a;
  }

  lemma ClauseNames(clauses: seq<Clause>, column: Column, from: nat, values: seq<string>)
    ensures Named(clauses + ClauseFor(column, from, values)) == Named(clauses) + Numbers(from, |values|)
  {
    if values == [] {
      assert clauses + [] == clauses;
    } else {
      NamedConcat(clauses, InList(column, Numbers(from, |values|)));
    }
  }

  /** In the order of the text, the placeholders of the page query are $1, $2, ... without gap or repetition
      up to the number of arguments; the last two are limit and offset. */
  lemma PlaceholdersNameArguments(f: Filters, page: int, pageSize: int)
    ensures var (q, countArgs, args) := Built(f, page, pageSize);
            && Named(q.clauses) + [q.limit, q.offset] == Numbers(1, |args|)
            && Named(q.clauses) == Numbers(1, |countArgs|) && countArgs == args[..|args|-2]
            && (var p, size := if page >= 1 then page else 1, if pageSize >= 1 then pageSize else 20;
                Resolve(args, q.limit) == Some(Number(size)) && Resolve(args, q.offset) == Some(Number((p - 1) * size)))
  {
    hide Named;
    var statusClauses := ClauseFor(StatusColumn, 1, f.status);
    ClauseNames([], StatusColumn, 1, f.status);
    assert [] + statusClauses == statusClauses;
    NoneNamed();
    ClauseNames(statusClauses, SeverityColumn, 1 + |f.status|, f.severity);
  }

  lemma NoneNamed()
    ensures Named([]) == []
  {}

  lemma {:induction false} WhereSame(rows: seq<Listed>, keep: Listed -> bool, keep': Listed -> bool)
    requires forall row :: keep(row) == keep'(row)
    ensures Where(rows, keep) == Where(rows, keep')
  {
    if rows != [] {
      WhereSame(rows[..|rows|-1], keep, keep');
    }
  }

  /** The incidents that pass both filters, in table order. */
  function Filtered(f: Filters, rows: seq<Listed>): seq<Listed> {
    Where(rows, (row: Listed) => Passes(f, row))
  }

  lemma {:induction false} WhereCount(rows: seq<Listed>, keep: Listed -> bool, x: Listed)
    ensures multiset(Where(rows, keep))[x] == if keep(x) then multiset(rows)[x] else 0
  {
    if rows != [] {
      WhereCount(rows[..|rows|-1], keep, x);
      assert rows == rows[..|rows|-1] + [rows[|rows|-1]];
    }
  }

  /** Filtering keeps every row that passes, as often as it occurs, and no other. */
  lemma FilteredRows(f: Filters, rows: seq<Listed>, row: Listed)
    ensures multiset(Filtered(f, rows))[row]
            == if (f.status == [] || row.status in f.status) && (f.severity == [] || row.severity in f.severity)
               then multiset(rows)[row] else 0
  {
    WhereCount(rows, (row: Listed) => Passes(f, row), row);
  }

  /** The count query and the page query both select exactly the incidents that pass both filters. */
  lemma SelectsFiltered(f: Filters, page: int, pageSize: int, rows: seq<Listed>)
    ensures var (q, countArgs, args) := Built(f, page, pageSize);
            && Selected(q, countArgs, rows) == Selected(q, args, rows) == Filtered(f, rows)
            && forall row :: multiset(Selected(q, args, rows))[row]
                             == if (f.status == [] || row.status in f.status) && (f.severity == [] || row.severity in f.severity)
                                then multiset(rows)[row] else 0
  {
    hide Built;
    var (q, countArgs, args) := Built(f, page, pageSize);
    forall row ensures (AllHold(q.clauses, args, row) <==> Passes(f, row)) && (AllHold(q.clauses, countArgs, row) <==> Passes(f, row)) {
      ClausesMeanFilters(f, page, pageSize, row);
    }
    WhereSame(rows, (row: Listed) => AllHold(q.clauses, args, row), (row: Listed) => Passes(f, row));
    WhereSame(rows, (row: Listed) => AllHold(q.clauses, countArgs, row), (row: Listed) => Passes(f, row));
    forall row { FilteredRows(f, rows, row); }
  }

  // ----- pages -----

  function Page(listing: seq<Listed>, page: nat, size: nat): seq<Listed>
    requires page >= 1
  {
    Slice(listing, (page - 1) * size, size)
  }

  /** Pages 1 to n in a row, each taken from its own answer of the database. */
  function Pages(listings: seq<seq<Listed>>, size: nat): seq<Listed> {
    if listings == [] then []
    else Pages(listings[..|listings|-1], size) + Page(listings[|listings|-1], |listings|, size)
  }

  function PageCount(total: nat, size: nat): nat
    requires size >= 1
  {
    (total + size - 1) / size
  }

  /** The first n of the listing, or all of it. */
  function UpTo(listing: seq<Listed>, n: nat): seq<Listed> {
    if n >= |listing| then listing else listing[..n]
  }

  lemma SliceExtends(listing: seq<Listed>, offset: nat, size: nat)
    ensures UpTo(listing, offset) + Slice(listing, offset, size) == UpTo(listing, offset + size)
  {}

  /** Where the page after the first n begins. */
  function Offset(n: nat, size: nat): nat {
    n * size
  }

  lemma OffsetSteps(n: nat, size: nat)
    ensures Offset(0, size) == 0 && Offset(n + 1, size) == Offset(n, size) + size
  {}

  lemma PageAt(listing: seq<Listed>, n: nat, size: nat)
    ensures Page(listing, n + 1, size) == Slice(listing, Offset(n, size), size)
  {}

  lemma NothingUpTo(listing: seq<Listed>)
    ensures UpTo(listing, 0) == []
  {}

  lemma {:induction false} PagesPrefix(listing: seq<Listed>, listings: seq<seq<Listed>>, size: nat)
    requires forall k :: 0 <= k < |listings| ==> listings[k] == listing
    ensures Pages(listings, size) == UpTo(listing, Offset(|listings|, size))
  {
    hide Slice, UpTo, Offset, Page;
    OffsetSteps(0, size);
    NothingUpTo(listing);
    if listings != [] {
      var n := |listings| - 1;
      PagesPrefix(listing, listings[..n], size);
      PageAt(listing, n, size);
      SliceExtends(listing, Offset(n, size), size);
      OffsetSteps(n, size);
    }
  }

  lemma PageCountCovers(total: nat, size: nat)
    requires size >= 1
    ensures PageCount(total, size) * size >= total
    ensures forall n: nat :: n < PageCount(total, size) ==> n * size < total
  {
    var n := PageCount(total, size);
    assert n * size == total + size - 1 - (total + size - 1) % size;
    forall k: nat | k < n ensures k * size < total {
      MulBelow(k, n - 1, size);
      assert (n - 1) * size == n * size - size;
    }
  }

  lemma MulBelow(k: nat, n: nat, size: nat)
    requires k <= n
    ensures k * size <= n * size
  {}

  // ----- what a reader of the pages sees -----

  /** What a list call answers: the rows of its page query and the number its count query gives. */
  datatype Answer = Answer(rows: seq<Listed>, total: nat)

  /** The answer to one list call, given how the database arranged the selected rows. */
  ghost predicate IsAnswer(f: Filters, page: int, pageSize: int, rows: seq<Listed>, listing: seq<Listed>, answer: Answer) {
    var (q, countArgs, args) := Built(f, page, pageSize);
    answer.total == |Selected(q, countArgs, rows)| && IsListing(Selected(q, args, rows), listing) &&
    match (Resolve<Arg>(args, q.limit), Resolve<Arg>(args, q.offset))
    case (Some(Number(limit)), Some(Number(offset))) => limit >= 0 && offset >= 0 && answer.rows == Slice(listing, offset, limit)
    case _ => false
  }

  /** A list call answers the page asked for, of an arrangement with the newest first of exactly the rows that
      pass the filters, and their number. A page below 1 counts as 1 and a page size below 1 as 20. */
  lemma AnswerIsPage(f: Filters, page: int, pageSize: int, rows: seq<Listed>, listing: seq<Listed>, answer: Answer)
    ensures page >= 1 && pageSize >= 1 ==>
              (IsAnswer(f, page, pageSize, rows, listing, answer)
               <==> IsListing(Filtered(f, rows), listing) && answer == Answer(Page(listing, page, pageSize), |listing|))
    ensures page < 1 ==> (IsAnswer(f, page, pageSize, rows, listing, answer) <==> IsAnswer(f, 1, pageSize, rows, listing, answer))
    ensures pageSize < 1 ==> (IsAnswer(f, page, pageSize, rows, listing, answer) <==> IsAnswer(f, page, 20, rows, listing, answer))
    ensures forall row :: multiset(Filtered(f, rows))[row]
                          == if (f.status == [] || row.status in f.status) && (f.severity == [] || row.severity in f.severity)
                             then multiset(rows)[row] else 0
  {
    if page >= 1 && pageSize >= 1 {
      ValidAnswer(f, page, pageSize, rows, listing, answer);
    }
    forall row { FilteredRows(f, rows, row); }
  }

  lemma ValidAnswer(f: Filters, page: nat, pageSize: nat, rows: seq<Listed>, listing: seq<Listed>, answer: Answer)
    requires page >= 1 && pageSize >= 1
    ensures IsAnswer(f, page, pageSize, rows, listing, answer)
            <==> IsListing(Filtered(f, rows), listing) && answer == Answer(Page(listing, page, pageSize), |listing|)
  {
    hide Built, IsListing, Slice, Filtered;
    PlaceholdersNameArguments(f, page, pageSize);
    SelectsFiltered(f, page, pageSize, rows);
    if IsListing(Filtered(f, rows), listing) {
      ListingLength(Filtered(f, rows), listing);
    }
  }

  /** A page holds the rows of the listing from its offset on, as many as fit. */
  lemma PageRows(listing: seq<Listed>, page: nat, size: nat, i: nat)
    requires page >= 1
    ensures i < |Page(listing, page, size)| <==> i < size && (page - 1) * size + i < |listing|
    ensures i < |Page(listing, page, size)| ==> Page(listing, page, size)[i] == listing[(page - 1) * size + i]
  {}

  /** No two rows were updated at the same time. */
  ghost predicate NoTies(rows: seq<Listed>) {
    forall i, j :: 0 <= i < j < |rows| ==> rows[i].updatedAt != rows[j].updatedAt
  }

  lemma MultisetMember(a: seq<Listed>, b: seq<Listed>, x: Listed)
    requires multiset(a) == multiset(b) && x in a
    ensures x in b
  {
    assert x in multiset(b);
  }

  ghost predicate DistinctRows(rows: seq<Listed>) {
    forall i, j :: 0 <= i < j < |rows| ==> rows[i] != rows[j]
  }

  lemma NoTiesDistinct(rows: seq<Listed>)
    requires NoTies(rows)
    ensures DistinctRows(rows)
  {}

  lemma OneCopy(rows: seq<Listed>, a: nat)
    requires DistinctRows(rows) && a < |rows|
    ensures multiset(rows)[rows[a]] == 1
  {
    assert rows == rows[..a] + [rows[a]] + rows[a + 1..];
    assert rows[a] !in rows[..a] && rows[a] !in rows[a + 1..];
  }

  lemma ListingNoTies(rows: seq<Listed>, listing: seq<Listed>, i: nat, j: nat)
    requires IsListing(rows, listing) && NoTies(rows) && i < j < |listing|
    ensures listing[i].updatedAt > listing[j].updatedAt
  {
    var x, y := listing[i], listing[j];
    if x.updatedAt == y.updatedAt {
      MultisetMember(listing, rows, x);
      MultisetMember(listing, rows, y);
      var a :| 0 <= a < |rows| && rows[a] == x;
      var b :| 0 <= b < |rows| && rows[b] == y;
      assert a == b;
      TwoIndicesTwoCopies(listing, i, j);
      NoTiesDistinct(rows);
      OneCopy(rows, a);
    }
  }

  /** While the arrangement stays the same, ties or not, the pages in a row are the listing: no row is left
      out or repeated. */
  lemma PagesOfOneListing(listing: seq<Listed>, listings: seq<seq<Listed>>, size: nat)
    requires size >= 1 && |listings| == PageCount(|listing|, size)
    requires forall k :: 0 <= k < |listings| ==> listings[k] == listing
    ensures Pages(listings, size) == listing
    ensures forall k :: 0 <= k < |listings| ==> Page(listings[k], k + 1, size) != []
  {
    hide Pages;
    PagesPrefix(listing, listings, size);
    PageCountCovers(|listing|, size);
  }

  ghost predicate StrictlyNewestFirst(listing: seq<Listed>) {
    forall i, j :: 0 <= i < j < |listing| ==> listing[i].updatedAt > listing[j].updatedAt
  }

  lemma StrictTail(listing: seq<Listed>)
    requires listing != [] && StrictlyNewestFirst(listing)
    ensures StrictlyNewestFirst(listing[1..]) && listing == [listing[0]] + listing[1..]
    ensures multiset(listing[1..]) == multiset(listing) - multiset{listing[0]}
  {
    assert listing == [listing[0]] + listing[1..];
  }

  lemma SameHead(a: seq<Listed>, b: seq<Listed>)
    requires a != [] && b != [] && multiset(a) == multiset(b) && StrictlyNewestFirst(a) && StrictlyNewestFirst(b)
    ensures a[0] == b[0]
  {
    MultisetMember(a, b, a[0]);
    MultisetMember(b, a, b[0]);
  }

  /** Strictly ordered listings of the same rows are the same. */
  lemma {:induction false} StrictListingUnique(a: seq<Listed>, b: seq<Listed>)
    requires multiset(a) == multiset(b) && StrictlyNewestFirst(a) && StrictlyNewestFirst(b)
    ensures a == b
  {
    hide StrictlyNewestFirst;
    assert |a| == |multiset(a)| == |multiset(b)| == |b|;
    if a != [] {
      SameHead(a, b);
      StrictTail(a);
      StrictTail(b);
      StrictListingUnique(a[1..], b[1..]);
    }
  }

  lemma ListingUnique(rows: seq<Listed>, a: seq<Listed>, b: seq<Listed>)
    requires NoTies(rows) && IsListing(rows, a) && IsListing(rows, b)
    ensures a == b
  {
    hide NoTies, IsListing;
    forall i, j | 0 <= i < j < |a| ensures a[i].updatedAt > a[j].updatedAt {
      ListingNoTies(rows, a, i, j);
    }
    forall i, j | 0 <= i < j < |b| ensures b[i].updatedAt > b[j].updatedAt {
      ListingNoTies(rows, b, i, j);
    }
    SameRows(rows, a, b);
    StrictListingUnique(a, b);
  }

  lemma SameRows(rows: seq<Listed>, a: seq<Listed>, b: seq<Listed>)
    requires IsListing(rows, a) && IsListing(rows, b)
    ensures multiset(a) == multiset(b)
  {}

  /** One arrangement for each page. */
  ghost predicate AreAnswers(selected: seq<Listed>, listings: seq<seq<Listed>>, size: nat)
    requires size >= 1
  {
    |listings| == PageCount(|selected|, size) && forall k :: 0 <= k < |listings| ==> IsListing(selected, listings[k])
  }

  lemma ListingsCover(selected: seq<Listed>, listings: seq<seq<Listed>>, size: nat, listing: seq<Listed>)
    requires size >= 1 && NoTies(selected) && IsListing(selected, listing) && AreAnswers(selected, listings, size)
    ensures Pages(listings, size) == listing
    ensures forall k :: 0 <= k < |listings| ==> Page(listings[k], k + 1, size) != []
  {
    hide NoTies, IsListing, Pages;
    forall k | 0 <= k < |listings| ensures listings[k] == listing {
      ListingUnique(selected, listings[k], listing);
    }
    ListingLength(selected, listing);
    PagesOfOneListing(listing, listings, size);
  }

  lemma ListingLength(rows: seq<Listed>, listing: seq<Listed>)
    requires IsListing(rows, listing)
    ensures |listing| == |rows|
  {
    assert |listing| == |multiset(listing)| == |multiset(rows)| == |rows|;
  }

  ghost predicate MayAnswer(f: Filters, page: int, pageSize: int, rows: seq<Listed>, answer: Answer) {
    exists listing :: IsAnswer(f, page, pageSize, rows, listing, answer)
  }

  /** A reader turns all the pages: the calls ask for pages 1, 2, ... up to as many as the filtered rows fill,
      and every answer is cut from an arrangement of its own. */
  ghost predicate Turned(f: Filters, size: nat, rows: seq<Listed>, answers: seq<Answer>)
    requires size >= 1
  {
    && |answers| == PageCount(|Filtered(f, rows)|, size)
    && forall k :: 0 <= k < |answers| ==> MayAnswer(f, k + 1, size, rows, answers[k])
  }

  /** What the reader has seen. */
  function InARow(answers: seq<Answer>): seq<Listed> {
    if answers == [] then [] else InARow(answers[..|answers|-1]) + answers[|answers|-1].rows
  }

  ghost predicate CutFrom(listings: seq<seq<Listed>>, size: nat, answers: seq<Answer>) {
    |answers| == |listings| && forall k :: 0 <= k < |answers| ==> answers[k].rows == Page(listings[k], k + 1, size)
  }

  lemma {:induction false} SeenIsPages(listings: seq<seq<Listed>>, size: nat, answers: seq<Answer>)
    requires CutFrom(listings, size, answers)
    ensures InARow(answers) == Pages(listings, size)
  {
    hide Page;
    if answers != [] {
      SeenIsPages(listings[..|listings|-1], size, answers[..|answers|-1]);
    }
  }

  ghost function Arrangement(f: Filters, page: nat, size: nat, rows: seq<Listed>, answer: Answer): seq<Listed>
    requires MayAnswer(f, page, size, rows, answer)
  {
    var listing :| IsAnswer(f, page, size, rows, listing, answer);
    listing
  }

  lemma AnswersAreCut(f: Filters, size: nat, rows: seq<Listed>, answers: seq<Answer>) returns (listings: seq<seq<Listed>>)
    requires size >= 1 && Turned(f, size, rows, answers)
    ensures AreAnswers(Filtered(f, rows), listings, size) && CutFrom(listings, size, answers)
    ensures InARow(answers) == Pages(listings, size)
  {
    hide IsAnswer, MayAnswer, Filtered, IsListing, Page, PageCount;
    listings := seq(|answers|, k requires 0 <= k < |answers| => Arrangement(f, k + 1, size, rows, answers[k]));
    forall k | 0 <= k < |answers|
      ensures IsListing(Filtered(f, rows), listings[k]) && answers[k].rows == Page(listings[k], k + 1, size)
    {
      ValidAnswer(f, k + 1, size, rows, listings[k], answers[k]);
    }
    SeenIsPages(listings, size, answers);
  }

  lemma CutsAreAnswers(f: Filters, size: nat, rows: seq<Listed>, listings: seq<seq<Listed>>) returns (answers: seq<Answer>)
    requires size >= 1 && AreAnswers(Filtered(f, rows), listings, size)
    ensures Turned(f, size, rows, answers) && InARow(answers) == Pages(listings, size)
  {
    hide IsAnswer, Filtered, IsListing, Page, PageCount;
    answers := seq(|listings|, k requires 0 <= k < |listings| => Answer(Page(listings[k], k + 1, size), |listings[k]|));
    forall k | 0 <= k < |listings| ensures MayAnswer(f, k + 1, size, rows, answers[k]) {
      ValidAnswer(f, k + 1, size, rows, listings[k], answers[k]);
    }
    SeenIsPages(listings, size, answers);
  }

  /** If no two filtered rows were updated at the same time, a reader who turns all the pages sees the whole
      listing: each row once, in order, whatever arrangement every single answer was cut from. Every answer
      names as many pages as there are, and none is empty. */
  lemma PagesCoverListing(f: Filters, size: nat, rows: seq<Listed>, listing: seq<Listed>, answers: seq<Answer>)
    requires size >= 1 && NoTies(Filtered(f, rows)) && IsListing(Filtered(f, rows), listing)
    requires Turned(f, size, rows, answers)
    ensures InARow(answers) == listing
    ensures forall k :: 0 <= k < |answers| ==> answers[k].rows != [] && PageCount(answers[k].total, size) == |answers|
  {
    hide NoTies, IsListing, Pages, Filtered, PageCount, Page, InARow, MayAnswer;
    var listings := AnswersAreCut(f, size, rows, answers);
    ListingsCover(Filtered(f, rows), listings, size, listing);
    forall k | 0 <= k < |answers| ensures answers[k].total == |Filtered(f, rows)| {
      AnswerTotal(f, k + 1, size, rows, answers[k]);
    }
  }

  /** Every answer gives the number of filtered rows. */
  lemma AnswerTotal(f: Filters, page: int, pageSize: int, rows: seq<Listed>, answer: Answer)
    requires MayAnswer(f, page, pageSize, rows, answer)
    ensures answer.total == |Filtered(f, rows)|
  {
    hide Filtered;
    SelectsFiltered(f, page, pageSize, rows);
  }

  // ----- exactly when the pages can be trusted -----

  /** The row before position n is newer than the row at n. */
  predicate Newer(listing: seq<Listed>, n: nat) {
    0 < n < |listing| ==> listing[n-1].updatedAt > listing[n].updatedAt
  }

  /** No two rows on different sides of a page boundary were updated at the same time. */
  ghost predicate NoTiesAcrossPages(listing: seq<Listed>, size: nat) {
    forall k: nat :: Newer(listing, Offset(k, size))
  }

  function Since(t: int): Listed -> bool {
    (row: Listed) => row.updatedAt >= t
  }

  lemma WhereSameRows(a: seq<Listed>, b: seq<Listed>, keep: Listed -> bool)
    requires multiset(a) == multiset(b)
    ensures multiset(Where(a, keep)) == multiset(Where(b, keep))
  {
    forall x ensures multiset(Where(a, keep))[x] == multiset(Where(b, keep))[x] {
      WhereCount(a, keep, x);
      WhereCount(b, keep, x);
    }
  }

  lemma {:induction false} AllSince(rows: seq<Listed>, t: int)
    requires forall i :: 0 <= i < |rows| ==> rows[i].updatedAt >= t
    ensures Where(rows, Since(t)) == rows
  {
    if rows != [] {
      AllSince(rows[..|rows|-1], t);
      assert rows == rows[..|rows|-1] + [rows[|rows|-1]];
    }
  }

  /** In a listing, the rows updated since some time come first. */
  lemma {:induction false} SinceIsPrefix(listing: seq<Listed>, t: int)
    requires forall i, j :: 0 <= i < j < |listing| ==> listing[i].updatedAt >= listing[j].updatedAt
    ensures var n := |Where(listing, Since(t))|;
            && n <= |listing| && Where(listing, Since(t)) == listing[..n]
            && forall i :: 0 <= i < |listing| ==> (listing[i].updatedAt >= t <==> i < n)
  {
    if listing != [] && listing[|listing|-1].updatedAt >= t {
      AllSince(listing, t);
    } else if listing != [] {
      var before := listing[..|listing|-1];
      SinceIsPrefix(before, t);
      assert Where(listing, Since(t)) == Where(before, Since(t)) + [];
    }
  }

  /** Where no tie crosses position n, all arrangements have the same first n rows. */
  lemma SamePrefix(selected: seq<Listed>, a: seq<Listed>, b: seq<Listed>, n: nat)
    requires IsListing(selected, a) && IsListing(selected, b) && Newer(a, n)
    ensures multiset(UpTo(a, n)) == multiset(UpTo(b, n))
  {
    hide Where;
    ListingLength(selected, a);
    ListingLength(selected, b);
    if 0 < n < |a| {
      var t := a[n-1].updatedAt;
      SinceIsPrefix(a, t);
      SinceIsPrefix(b, t);
      WhereSameRows(a, b, Since(t));
      assert |Where(a, Since(t))| == |multiset(Where(a, Since(t)))| == |multiset(Where(b, Since(t)))| == |Where(b, Since(t))|;
      assert |Where(a, Since(t))| == n;
    } else if n == 0 {
      assert UpTo(a, n) == [] && UpTo(b, n) == [];
    }
  }

  /** Where no tie crosses its two boundaries, a page has the same rows in all arrangements. */
  lemma SamePage(selected: seq<Listed>, a: seq<Listed>, b: seq<Listed>, page: nat, size: nat)
    requires IsListing(selected, a) && IsListing(selected, b) && NoTiesAcrossPages(a, size)
    ensures multiset(Page(a, page + 1, size)) == multiset(Page(b, page + 1, size))
  {
    hide IsListing, Offset, UpTo, Slice, Page, Newer;
    var from := Offset(page, size);
    PageAt(a, page, size);
    PageAt(b, page, size);
    OffsetSteps(page, size);
    assert Newer(a, from) && Newer(a, Offset(page + 1, size));
    SamePrefix(selected, a, b, from);
    SamePrefix(selected, a, b, from + size);
    SliceExtends(a, from, size);
    SliceExtends(b, from, size);
    RowsSplit(UpTo(a, from), Slice(a, from, size));
    RowsSplit(UpTo(b, from), Slice(b, from, size));
  }

  lemma RowsSplit(first: seq<Listed>, second: seq<Listed>)
    ensures multiset(second) == multiset(first + second) - multiset(first)
  {}

  lemma LastPage(listings: seq<seq<Listed>>, size: nat)
    requires listings != []
    ensures var n := |listings| - 1;
            multiset(Pages(listings, size)) == multiset(Pages(listings[..n], size)) + multiset(Page(listings[n], n + 1, size))
  {
    hide Page;
  }

  lemma {:induction false} SamePages(selected: seq<Listed>, listing: seq<Listed>, a: seq<seq<Listed>>, b: seq<seq<Listed>>, size: nat)
    requires |a| == |b| && IsListing(selected, listing) && NoTiesAcrossPages(listing, size)
    requires forall k :: 0 <= k < |a| ==> a[k] == listing && IsListing(selected, b[k])
    ensures multiset(Pages(a, size)) == multiset(Pages(b, size))
  {
    hide IsListing, NoTiesAcrossPages, Page, Pages;
    if a == [] {
      assert a == b;
    } else {
      var n := |a| - 1;
      SamePages(selected, listing, a[..n], b[..n], size);
      SamePage(selected, listing, b[n], n, size);
      LastPage(a, size);
      LastPage(b, size);
    }
  }

  /** Changing the arrangement behind one answer changes what the pages show by that page alone. */
  lemma {:induction false} PagesWithOneChanged(listings: seq<seq<Listed>>, k: nat, other: seq<Listed>, size: nat)
    requires k < |listings|
    ensures multiset(Pages(listings[k := other], size)) + multiset(Page(listings[k], k + 1, size))
            == multiset(Pages(listings, size)) + multiset(Page(other, k + 1, size))
  {
    hide Page, Pages;
    var n, changed := |listings| - 1, listings[k := other];
    LastPage(listings, size);
    LastPage(changed, size);
    if k < n {
      PagesWithOneChanged(listings[..n], k, other, size);
      assert changed[..n] == listings[..n][k := other] && changed[n] == listings[n];
      SwapSummands(multiset(Pages(changed[..n], size)), multiset(Page(listings[n], n + 1, size)), multiset(Page(listings[k], k + 1, size)));
      SwapSummands(multiset(Pages(listings[..n], size)), multiset(Page(listings[n], n + 1, size)), multiset(Page(other, k + 1, size)));
    } else {
      assert changed[..n] == listings[..n] && changed[n] == other;
      SwapSummands(multiset(Pages(listings[..n], size)), multiset(Page(other, k + 1, size)), multiset(Page(listings[k], k + 1, size)));
    }
  }

  /** The listing with the rows around position n exchanged. */
  function Exchanged(listing: seq<Listed>, n: nat): seq<Listed>
    requires 0 < n < |listing|
  {
    listing[n-1 := listing[n]][n := listing[n-1]]
  }

  lemma ExchangedSameRows(listing: seq<Listed>, n: nat)
    requires 0 < n < |listing|
    ensures multiset(Exchanged(listing, n)) == multiset(listing)
  {
    var x, y := listing[n-1], listing[n];
    assert listing == listing[..n-1] + [x, y] + listing[n+1..];
    assert Exchanged(listing, n) == listing[..n-1] + [y, x] + listing[n+1..];
    assert multiset([x, y]) == multiset([y, x]);
  }

  lemma ExchangedIsListing(selected: seq<Listed>, listing: seq<Listed>, n: nat)
    requires IsListing(selected, listing) && 0 < n < |listing| && listing[n-1].updatedAt == listing[n].updatedAt
    ensures IsListing(selected, Exchanged(listing, n))
  {
    ExchangedSameRows(listing, n);
    assert forall i :: 0 <= i < |listing| ==> Exchanged(listing, n)[i].updatedAt == listing[i].updatedAt;
  }

  lemma TiedRowsDiffer(selected: seq<Listed>, listing: seq<Listed>, n: nat)
    requires DistinctRows(selected) && IsListing(selected, listing) && 0 < n < |listing|
    ensures listing[n-1] != listing[n]
  {
    if listing[n-1] == listing[n] {
      TwoIndicesTwoCopies(listing, n - 1, n);
      MultisetMember(listing, selected, listing[n]);
      var a :| 0 <= a < |selected| && selected[a] == listing[n];
      OneCopy(selected, a);
    }
  }

  /** The page from position n is the row there and a rest that the exchange does not touch. */
  lemma ExchangedSlice(listing: seq<Listed>, n: nat, size: nat) returns (rest: seq<Listed>)
    requires size >= 1 && 0 < n < |listing|
    ensures Slice(listing, n, size) == [listing[n]] + rest
    ensures Slice(Exchanged(listing, n), n, size) == [listing[n-1]] + rest
  {
    var end := if n + size >= |listing| then |listing| else n + size;
    rest := listing[n + 1..end];
    assert Exchanged(listing, n)[n..end] == [listing[n-1]] + rest;
  }

  /** The page after a tied boundary shows the other row once the two are exchanged. */
  lemma ExchangedPage(listing: seq<Listed>, n: nat, size: nat)
    requires size >= 1 && 0 < n < |listing| && listing[n-1] != listing[n]
    ensures multiset(Slice(Exchanged(listing, n), n, size)) != multiset(Slice(listing, n, size))
  {
    hide Slice, Exchanged;
    var rest := ExchangedSlice(listing, n, size);
    var x, y := listing[n-1], listing[n];
    assert multiset([y] + rest)[y] == multiset(rest)[y] + 1;
    assert multiset([x] + rest)[y] == multiset(rest)[y];
  }

  /** Some choice of arrangements makes a reader miss a row if a tie crosses a page boundary. */
  lemma TieAcrossPagesMisleads(selected: seq<Listed>, listing: seq<Listed>, size: nat, k: nat) returns (listings: seq<seq<Listed>>)
    requires size >= 1 && DistinctRows(selected) && IsListing(selected, listing) && !Newer(listing, Offset(k, size))
    ensures AreAnswers(selected, listings, size) && multiset(Pages(listings, size)) != multiset(selected)
  {
    hide DistinctRows, Offset, Page, Pages, Slice, PageCount, Exchanged, IsListing;
    var n := Offset(k, size);
    TiedAt(selected, listing, n);
    TiedRowsDiffer(selected, listing, n);
    var other := Exchanged(listing, n);
    ExchangedIsListing(selected, listing, n);
    ListingLength(selected, listing);
    PageCountReaches(|listing|, size, k);
    var all := seq(PageCount(|listing|, size), _ => listing);
    listings := all[k := other];
    PagesOfOneListing(listing, all, size);
    PagesWithOneChanged(all, k, other, size);
    PageAt(listing, k, size);
    PageAt(other, k, size);
    ExchangedPage(listing, n, size);
    SelectedRows(selected, listing);
    if multiset(Pages(listings, size)) == multiset(selected) {
      CancelSum(multiset(selected), multiset(Page(listing, k + 1, size)), multiset(Page(other, k + 1, size)));
    }
  }

  lemma TiedAt(selected: seq<Listed>, listing: seq<Listed>, n: nat)
    requires IsListing(selected, listing) && !Newer(listing, n)
    ensures 0 < n < |listing| && listing[n-1].updatedAt == listing[n].updatedAt
  {}

  lemma SelectedRows(selected: seq<Listed>, listing: seq<Listed>)
    requires IsListing(selected, listing)
    ensures multiset(listing) == multiset(selected)
  {}

  lemma PageCountReaches(total: nat, size: nat, k: nat)
    requires size >= 1 && Offset(k, size) < total
    ensures k < PageCount(total, size)
  {
    PageCountCovers(total, size);
    if PageCount(total, size) <= k {
      MulBelow(PageCount(total, size), k, size);
    }
  }

  lemma ListingsTrustedIff(selected: seq<Listed>, listing: seq<Listed>, size: nat)
    requires size >= 1 && DistinctRows(selected) && IsListing(selected, listing)
    ensures (forall listings :: AreAnswers(selected, listings, size) ==> multiset(Pages(listings, size)) == multiset(selected))
            <==> forall k: nat :: 0 < k * size < |listing| ==> listing[k*size-1].updatedAt > listing[k*size].updatedAt
  {
    hide Pages, IsListing, DistinctRows, PageCount;
    ListingLength(selected, listing);
    SelectedRows(selected, listing);
    if NoTiesAcrossPages(listing, size) {
      forall listings | AreAnswers(selected, listings, size) ensures multiset(Pages(listings, size)) == multiset(selected) {
        var all := seq(|listings|, _ => listing);
        PagesOfOneListing(listing, all, size);
        SamePages(selected, listing, all, listings, size);
      }
      forall k: nat | 0 < k * size < |listing| ensures listing[k*size-1].updatedAt > listing[k*size].updatedAt {
        assert Newer(listing, Offset(k, size));
      }
    } else {
      var k: nat :| !Newer(listing, Offset(k, size));
      var listings := TieAcrossPagesMisleads(selected, listing, size, k);
      assert 0 < k * size < |listing|;
    }
  }

  /** A reader who turns all the pages sees every filtered row exactly once, whatever arrangements the database
      cuts its answers from, if and only if no tie crosses a page boundary. Ties within a page do no harm. */
  lemma PagesTrustedIff(f: Filters, size: nat, rows: seq<Listed>, listing: seq<Listed>)
    requires size >= 1 && DistinctRows(Filtered(f, rows)) && IsListing(Filtered(f, rows), listing)
    ensures (forall answers :: Turned(f, size, rows, answers) ==> multiset(InARow(answers)) == multiset(Filtered(f, rows)))
            <==> forall k: nat :: 0 < k * size < |listing| ==> listing[k*size-1].updatedAt > listing[k*size].updatedAt
  {
    hide Pages, IsListing, DistinctRows, Filtered, InARow, Turned, AreAnswers;
    var selected := Filtered(f, rows);
    ListingsTrustedIff(selected, listing, size);
    if forall listings :: AreAnswers(selected, listings, size) ==> multiset(Pages(listings, size)) == multiset(selected) {
      forall answers | Turned(f, size, rows, answers) ensures multiset(InARow(answers)) == multiset(selected) {
        var listings := AnswersAreCut(f, size, rows, answers);
      }
    } else {
      var listings :| AreAnswers(selected, listings, size) && multiset(Pages(listings, size)) != multiset(selected);
      var answers := CutsAreAnswers(f, size, rows, listings);
    }
  }

  /** With a tie this fails: the database may arrange two rows one way for the first page and the other way
      for the second, and a reader sees one of them twice and the other never. */
  lemma TiedPagesRepeat(a: Listed, b: Listed)
    requires a != b && a.updatedAt == b.updatedAt
    ensures IsListing([a, b], [a, b]) && IsListing([a, b], [b, a])
    ensures Pages([[a, b], [b, a]], 1) == [a, a]
  {
    var listings := [[a, b], [b, a]];
    assert listings[..1] == [[a, b]];
    assert listings[..1][..0] == [];
    assert Page([a, b], 1, 1) == [a];
    assert Page([b, a], 2, 1) == [a];
    assert Pages(listings[..1], 1) == Pages([], 1) + Page([a, b], 1, 1);
    assert [a, b] == [a] + [b] && [b, a] == [b] + [a];
  }
}
