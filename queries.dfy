/** What each SQL statement of the diary store does to, or reads from, the
    `diary` table, seen as a map from date to content (src-tauri/src/lib.rs).
    The table's primary key is the date, so a map is exactly its contents. */
module DiaryQueries {
  import opened SqlText
  import opened Decimal
  import opened Ordering

  /** The rows of the `diary` table: at most one content per date. */
  type Table = map<int, string>

  /** The failures the store reports. Each stands for one error string of
      the source: the open error, the wrong-password message, the
      not-unlocked message, the read-failure message of `get`, and an error
      SQLite reports for a row while a statement runs. */
  datatype Error = OpenFailed | WrongPassword | NotUnlocked | ReadFailed | StatementFailed

  datatype Result<T> = Ok(value: T) | Err(error: Error)

  /** The WHERE clause of the search statement:
      `instr(lower(date), lower(?1)) > 0 OR instr(lower(content), lower(?1)) > 0`,
      where the integer date is read as its decimal text. */
  predicate RowMatches(date: int, content: string, query: string): (b: bool)
    ensures query == [] ==> b
  {
    Instr(Lower(Render(date)), Lower(query)) > 0 || Instr(Lower(content), Lower(query)) > 0
  }

  /** A row matches exactly when the lower-cased query is a substring of the
      date's decimal text or of the lower-cased content. */
  lemma RowMatchesMeaning(date: int, content: string, query: string)
    ensures RowMatches(date, content, query)
        <==> IsSubstring(Lower(query), Render(date)) || IsSubstring(Lower(query), Lower(content))
  {
    LowerRender(date);
    InstrMeaning(Render(date), Lower(query));
    InstrMeaning(Lower(content), Lower(query));
  }

  /** Matching ignores ASCII case on both sides. */
  lemma MatchIgnoresCase(date: int, content: string, query: string)
    ensures RowMatches(date, content, query) == RowMatches(date, content, Lower(query))
    ensures RowMatches(date, content, query) == RowMatches(date, Lower(content), query)
  {
    LowerIdempotent(query);
    LowerIdempotent(content);
  }

  /** The empty query matches every row. */
  lemma EmptyQueryMatches(date: int, content: string)
    ensures RowMatches(date, content, "")
  {
    assert Lower("") == "";
    InstrEmptyNeedle(Lower(Render(date)));
  }

  /** The rows the search statement returns:
      `SELECT date FROM diary WHERE ... ORDER BY date DESC`. */
  function Select(table: Table, query: string): (dates: seq<int>)
    ensures forall d :: d in dates ==> d in table
  {
    SortDesc(set d | d in table && RowMatches(d, table[d], query))
  }

  /** A date is in the search result exactly when it is stored and its row
      matches; the result is strictly descending, so no date is repeated. */
  lemma SelectMeaning(table: Table, query: string)
    ensures forall d :: d in Select(table, query) <==> d in table && RowMatches(d, table[d], query)
    ensures StrictlyDescending(Select(table, query))
  {
  }

  /** Select is the only sequence that lists the matching dates from the
      most recent down with none repeated. */
  lemma SelectIsOrderByDesc(table: Table, query: string, dates: seq<int>)
    requires StrictlyDescending(dates)
    requires forall d :: d in dates <==> d in table && RowMatches(d, table[d], query)
    ensures dates == Select(table, query)
  {
    SortDescUnique(dates, set d | d in table && RowMatches(d, table[d], query));
  }

  /** With the empty query the search lists every stored date, most recent first. */
  lemma SelectEmptyQuery(table: Table)
    ensures Select(table, "") == SortDesc(table.Keys)
  {
    forall d | d in table
      ensures RowMatches(d, table[d], "")
    {
      EmptyQueryMatches(d, table[d]);
    }
    assert (set d | d in table && RowMatches(d, table[d], "")) == table.Keys;
  }

  /** `SELECT content FROM diary WHERE date = ?` read with `query_row`: the
      stored content, or a read failure when no row has that date. */
  function Lookup(table: Table, date: int): (r: Result<string>)
    ensures r.Ok? <==> date in table
    ensures r.Ok? ==> r.value == table[date]
    ensures r.Err? ==> r.error == ReadFailed
  {
    if date in table then Ok(table[date]) else Err(ReadFailed)
  }

  /** `INSERT INTO diary (date, content) VALUES (?1, ?2) ON CONFLICT(date)
      DO UPDATE SET content = excluded.content`, with the date bound as its
      decimal text: the row of `date` now holds `content`, whether or not it
      existed, and no other row changes. */
  function Upsert(table: Table, date: int, content: string): (r: Table)
    ensures date in r && r[date] == content
    ensures forall d :: d != date ==> (d in r <==> d in table)
    ensures forall d :: d != date && d in table ==> r[d] == table[d]
  {
    var key := Parse(Render(date));
    ParseRender(date);
    table[key := content]
  }

  /** `DELETE FROM diary WHERE date = ?`, with the date bound as its decimal
      text: the row of `date` is gone and no other row changes. */
  function Remove(table: Table, date: int): (r: Table)
    ensures date !in r
    ensures forall d :: d != date ==> (d in r <==> d in table)
    ensures forall d :: d != date && d in table ==> r[d] == table[d]
  {
    var key := Parse(Render(date));
    ParseRender(date);
    table - {key}
  }

  /** Reading a date just saved gives the saved content; other dates read as before. */
  lemma SaveThenGet(table: Table, date: int, content: string)
    ensures Lookup(Upsert(table, date, content), date) == Ok(content)
    ensures forall d :: d != date ==> Lookup(Upsert(table, date, content), d) == Lookup(table, d)
  {
  }

  /** A second save to the same date replaces the first: no duplicate row, last content wins. */
  lemma SaveTwice(table: Table, date: int, first: string, second: string)
    ensures Upsert(Upsert(table, date, first), date, second) == Upsert(table, date, second)
  {
  }

  /** After a delete the date reads as missing; other dates read as before. */
  lemma DeleteThenGet(table: Table, date: int)
    ensures Lookup(Remove(table, date), date) == Err(ReadFailed)
    ensures forall d :: d != date ==> Lookup(Remove(table, date), d) == Lookup(table, d)
  {
  }

  /** Deleting a date that has no row changes nothing, so deleting twice is deleting once. */
  lemma DeleteIdempotent(table: Table, date: int)
    ensures date !in table ==> Remove(table, date) == table
    ensures Remove(Remove(table, date), date) == Remove(table, date)
  {
  }

  /** A saved entry is found by a search exactly when its own date and content match the query. */
  lemma SaveThenSearch(table: Table, date: int, content: string, query: string)
    ensures date in Select(Upsert(table, date, content), query) <==> RowMatches(date, content, query)
  {
    SelectMeaning(Upsert(table, date, content), query);
  }

  /** Content "Hello" is found by "hello" and by "HELLO". */
  lemma SearchIgnoresCaseExample()
    ensures RowMatches(20240101, "Hello", "hello")
    ensures RowMatches(20240101, "Hello", "HELLO")
  {
    assert Lower("Hello") == "hello";
    assert Lower("hello") == "hello";
    assert Lower("HELLO") == "hello";
    assert Instr("hello", "hello") == 1;
  }

  /** A query that occurs in a date's decimal text matches that date. Such a
      query holds only digits and a minus sign, so `lower` leaves it as it is. */
  lemma DateTextMatches(date: int, content: string, query: string, at: int)
    requires OccursAt(Render(date), query, at)
    ensures RowMatches(date, content, query)
  {
    var text := Render(date);
    RenderHasNoCapitals(date);
    assert forall i :: 0 <= i < |query| ==> query[i] == text[at + i];
    LowerOfLowerCase(query);
    LowerRender(date);
    InstrMeaning(text, query);
  }

  /** The decimal text of the date 20240115. */
  lemma RenderExample()
    ensures Render(20240115) == "20240115"
  {
    assert RenderNat(2) == "2";
    assert RenderNat(20) == "20";
    assert RenderNat(202) == "202";
    assert RenderNat(2024) == "2024";
    assert RenderNat(20240) == "20240";
    assert RenderNat(202401) == "202401";
    assert RenderNat(2024011) == "2024011";
  }

  /** The date 20240115 is found by "0115". */
  lemma SearchDateExample()
    ensures RowMatches(20240115, "", "0115")
  {
    RenderExample();
    assert OccursAt("20240115", "0115", 4);
    DateTextMatches(20240115, "", "0115", 4);
  }

  /** The rows a statement hands to its row iterator when none of them fails. */
  function Delivered(dates: seq<int>): (rows: seq<Result<int>>)
    ensures |rows| == |dates|
    ensures forall i :: 0 <= i < |rows| ==> rows[i] == Ok(dates[i])
  {
    seq(|dates|, i requires 0 <= i < |dates| => Ok(dates[i]))
  }

  /** The loop of `fetch_dates_internal`: walks the statement's rows in
      order, pushing each row's date, and stops at the first row SQLite
      reports an error for, returning that error and nothing collected. */
  method CollectRows(rows: seq<Result<int>>) returns (r: Result<seq<int>>)
    ensures r.Ok? <==> forall i :: 0 <= i < |rows| ==> rows[i].Ok?
    ensures r.Ok? ==> |r.value| == |rows| && forall i :: 0 <= i < |rows| ==> r.value[i] == rows[i].value
    ensures r.Err? ==> exists k :: 0 <= k < |rows| && rows[k] == Err(r.error) && forall i :: 0 <= i < k ==> rows[i].Ok?
  {
    var dates := [];
    for i := 0 to |rows|
      invariant |dates| == i
      invariant forall j :: 0 <= j < i ==> rows[j].Ok? && dates[j] == rows[j].value
    {
      if rows[i].Err? {
        return Err(rows[i].error);
      }
      dates := dates + [rows[i].value];
    }
    return Ok(dates);
  }

  /** `fetch_dates_internal`: runs the search statement and collects the
      rows it yields, so the result is exactly the statement's answer. */
  method FetchDates(table: Table, query: string) returns (r: Result<seq<int>>)
    ensures r == Ok(Select(table, query))
  {
    var selected := Select(table, query);
    r := CollectRows(Delivered(selected));
    assert r.value == selected;
  }
}
