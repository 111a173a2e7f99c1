/** The prompt catalogue: `parseCSV` (script.js:212-232), the audience
    filter of `createPromptCards` (script.js:241-245), the search filter
    (script.js:441-455) and the count label of `updatePromptCount`
    (script.js:474-484). */
module Catalog {
  import opened Strings

  /** A field of a record: text, or the boolean the `for_devs` column is
      turned into. */
  datatype Cell = Text(s: string) | Flag(b: bool)

  /** One record: column name to field. */
  type Entry = map<string, Cell>

  /** JavaScript truthiness of a field. */
  predicate Truthy(c: Cell) {
    match c
    case Text(s) => s != ""
    case Flag(b) => b
  }

  /** JavaScript truthiness of `entry[key]`; a missing key reads as
      `undefined`. */
  predicate Has(e: Entry, key: string) {
    key in e && Truthy(e[key])
  }

  /** `s.filter(keep)`: the elements kept, in order. */
  function Filter<T(!new)>(s: seq<T>, keep: T -> bool): (r: seq<T>)
    ensures forall x :: x in r <==> x in s && keep(x)
    ensures |r| <= |s|
    ensures |s| == 1 ==> r == (if keep(s[0]) then s else [])
  {
    if |s| == 0 then []
    else (if keep(s[0]) then [s[0]] else []) + Filter(s[1..], keep)
  }

  /** Filtering a concatenation filters each part: the elements kept stay
      in their order, repeats included. */
  lemma {:induction false} FilterAppend<T(!new)>(a: seq<T>, b: seq<T>, keep: T -> bool)
    ensures Filter(a + b, keep) == Filter(a, keep) + Filter(b, keep)
    decreases |a|
  {
    if |a| > 0 {
      assert (a + b)[0] == a[0] && (a + b)[1..] == a[1..] + b;
      FilterAppend(a[1..], b, keep);
    } else {
      assert a + b == b;
    }
  }

  /** f applied to each element, in order. */
  function Map<A(!new), B(!new)>(f: A -> B, xs: seq<A>): (ys: seq<B>)
    ensures |ys| == |xs|
    ensures forall i :: 0 <= i < |xs| ==> ys[i] == f(xs[i])
  {
    if |xs| == 0 then [] else [f(xs[0])] + Map(f, xs[1..])
  }

  /** The elements of the mapped sequence are the images of the elements. */
  lemma {:induction false} MapMembers<A(!new), B(!new)>(f: A -> B, xs: seq<A>)
    ensures forall y :: y in Map(f, xs) <==> exists x :: x in xs && y == f(x)
    decreases |xs|
  {
    if |xs| > 0 {
      MapMembers(f, xs[1..]);
      MapCons(f, xs, Map(f, xs[1..]));
    }
  }

  lemma MapCons<A(!new), B(!new)>(f: A -> B, xs: seq<A>, rest: seq<B>)
    requires |xs| > 0
    requires forall y :: y in rest <==> exists x :: x in xs[1..] && y == f(x)
    ensures forall y :: y in [f(xs[0])] + rest <==> exists x :: x in xs && y == f(x)
  {
    forall y
      ensures y in [f(xs[0])] + rest <==> exists x :: x in xs && y == f(x)
    {
      if y in rest {
        var x :| x in xs[1..] && y == f(x);
        assert x in xs;
      }
      if exists x :: x in xs && y == f(x) {
        var x :| x in xs && y == f(x);
        if x != xs[0] {
          var i :| 0 <= i < |xs| && xs[i] == x;
          assert xs[1..][i - 1] == x;
        }
      }
    }
  }

  /** Filtering keeps a sequence whose every element passes unchanged. */
  lemma {:induction false} FilterAllKept<T(!new)>(s: seq<T>, keep: T -> bool)
    requires forall i :: 0 <= i < |s| ==> keep(s[i])
    ensures Filter(s, keep) == s
  {
    if |s| > 0 {
      FilterAllKept(s[1..], keep);
    }
  }

  /** Filtering twice with the same test is filtering once. */
  lemma FilterIdempotent<T(!new)>(s: seq<T>, keep: T -> bool)
    ensures Filter(Filter(s, keep), keep) == Filter(s, keep)
  {
    var r := Filter(s, keep);
    assert forall i :: 0 <= i < |r| ==> r[i] in r;
    FilterAllKept(r, keep);
  }

  // ---- parseCSV ----

  /** r is what remains of cell h once its quotes are removed and only
      white space is cut from either end. */
  ghost predicate CleanedFrom(r: string, h: string) {
    exists k :: TrimmedAt(Unquote(h), r, k)
  }

  /** A header cell: quotes removed, then trimmed. */
  function Clean(h: string): (r: string)
    ensures '"' !in r && Unpadded(r)
    ensures CleanedFrom(r, h)
  {
    var u := Unquote(h);
    TrimKeepsChars(u);
    Trim(u)
  }

  /** The header cells of a text: its first line split at commas. */
  function HeaderCells(csv: string): seq<string> {
    Split(Split(csv, '\n')[0], ',')
  }

  /** The clean form of a cell is the only quote-free, unpadded text that
      sits in the unquoted cell with nothing but white space around it. */
  lemma CleanValue(h: string, r: string)
    requires '"' !in r && Unpadded(r)
    requires CleanedFrom(r, h)
    ensures Clean(h) == r
  {
    var k :| TrimmedAt(Unquote(h), r, k);
    TrimUnique(Unquote(h), r, k);
  }

  /** The column names: the first line split at commas, each cleaned. */
  function Headers(csv: string): (hs: seq<string>)
    ensures |hs| == |HeaderCells(csv)|
    ensures forall i :: 0 <= i < |hs| ==> '"' !in hs[i] && Unpadded(hs[i])
    ensures forall i :: 0 <= i < |hs| ==> CleanedFrom(hs[i], HeaderCells(csv)[i])
  {
    Map(Clean, HeaderCells(csv))
  }

  /** One column name more than there are commas on the first line. */
  lemma HeadersCount(csv: string)
    ensures |Headers(csv)| == multiset(Split(csv, '\n')[0])[','] + 1
  {
    SplitCount(Split(csv, '\n')[0], ',');
  }

  /** A header line written from names splits back into those names. */
  lemma HeaderCellsOfLine(names: seq<string>, rest: string)
    requires |names| > 0
    requires forall i :: 0 <= i < |names| ==> ',' !in names[i] && '\n' !in names[i]
    ensures HeaderCells(Join(names, ',') + "\n" + rest) == names
  {
    var line := Join(names, ',');
    JoinAvoids(names, ',', '\n');
    SplitHead(line, rest, '\n');
    SplitJoin(names, ',');
  }

  /** Names without commas, quotes, line breaks or surrounding white space,
      written as a header line, are read back as the column names. */
  lemma HeadersRoundTrip(names: seq<string>, rest: string)
    requires |names| > 0
    requires forall i :: 0 <= i < |names| ==>
               ',' !in names[i] && '"' !in names[i] && '\n' !in names[i] && Unpadded(names[i])
    ensures Headers(Join(names, ',') + "\n" + rest) == names
  {
    HeaderCellsOfLine(names, rest);
    forall i | 0 <= i < |names|
      ensures Clean(names[i]) == names[i]
    {
      CleanPlain(names[i]);
    }
  }

  /** A header line of cells without commas or line breaks is read as the
      names that the cells hold once unquoted and trimmed, whatever quotes
      and white space the cells add around them. */
  lemma HeadersReadCells(cells: seq<string>, names: seq<string>, rest: string)
    requires |cells| > 0 && |names| == |cells|
    requires forall i :: 0 <= i < |cells| ==> ',' !in cells[i] && '\n' !in cells[i]
    requires forall i :: 0 <= i < |names| ==> '"' !in names[i] && Unpadded(names[i])
    requires forall i :: 0 <= i < |names| ==> CleanedFrom(names[i], cells[i])
    ensures Headers(Join(cells, ',') + "\n" + rest) == names
  {
    HeaderCellsOfLine(cells, rest);
    forall i | 0 <= i < |names|
      ensures Clean(cells[i]) == names[i]
    {
      CleanValue(cells[i], names[i]);
    }
  }

  /** A name without quotes or surrounding white space is its own clean
      form. */
  lemma CleanPlain(h: string)
    requires '"' !in h && Unpadded(h)
    ensures Clean(h) == h
  {
    TrimUnpadded(h);
  }

  /** The field of column `header` from the token at its position, if the
      line has one: quotes removed and trimmed, and for `for_devs` whether
      that reads `TRUE` in upper case. */
  function CellFor(header: string, token: string): (c: Cell)
    ensures header == "for_devs" <==> c.Flag?
    ensures c.Text? ==> '"' !in c.s && Unpadded(c.s)
    ensures c.Text? ==> CleanedFrom(c.s, token)
  {
    var value := Clean(token);
    if header == "for_devs" then Flag(Upper(value) == "TRUE") else Text(value)
  }

  /** The token at position i, or the empty text past the end. */
  function TokenAt(values: seq<string>, i: nat): string {
    if i < |values| then values[i] else ""
  }

  /** The last position of x in s. */
  function LastIndex<T(==)>(s: seq<T>, x: T): (r: nat)
    requires x in s
    ensures r < |s| && s[r] == x && x !in s[r + 1..]
  {
    if s[|s| - 1] == x then |s| - 1
    else
      var r := LastIndex(s[..|s| - 1], x);
      assert s[r + 1..] == s[..|s| - 1][r + 1..] + [s[|s| - 1]];
      r
  }

  /** The record after assigning the fields of the first n columns in
      order, each `entry[header] = value` overwriting an earlier column of
      the same name. */
  function Assigned(headers: seq<string>, values: seq<string>, n: nat): Entry
    requires n <= |headers|
  {
    if n == 0 then map[]
    else Assigned(headers, values, n - 1)[headers[n - 1] := CellFor(headers[n - 1], TokenAt(values, n - 1))]
  }

  /** The record described directly: one key per column name, holding the
      field of the name's last column. */
  function LastColumns(headers: seq<string>, values: seq<string>): Entry {
    map h | h in headers :: CellFor(h, TokenAt(values, LastIndex(headers, h)))
  }

  lemma LastIndexLast<T>(p: seq<T>, h: T)
    ensures LastIndex(p + [h], h) == |p|
  {
    assert (p + [h])[|p|] == h;
  }

  lemma LastIndexSnoc<T>(p: seq<T>, h: T, k: T)
    requires k in p && k != h
    ensures LastIndex(p + [h], k) == LastIndex(p, k)
  {
    assert (p + [h])[..|p|] == p;
  }

  lemma LastColumnsSnocKeys(p: seq<string>, h: string, values: seq<string>, k: string)
    ensures k in LastColumns(p + [h], values) <==> k in LastColumns(p, values) || k == h
  {
    assert k in p + [h] <==> k in p || k == h;
  }

  lemma LastColumnsSnocAt(p: seq<string>, h: string, values: seq<string>, k: string)
    requires k in p + [h]
    ensures k == h ==> LastColumns(p + [h], values)[k] == CellFor(h, TokenAt(values, |p|))
    ensures k != h ==> k in p && LastColumns(p + [h], values)[k] == LastColumns(p, values)[k]
  {
    if k == h {
      LastIndexLast(p, h);
    } else {
      LastIndexSnoc(p, h, k);
    }
  }

  /** One more column: its name now holds its field, and every other name
      keeps its own. */
  lemma LastColumnsSnoc(p: seq<string>, h: string, values: seq<string>)
    ensures LastColumns(p + [h], values) == LastColumns(p, values)[h := CellFor(h, TokenAt(values, |p|))]
  {
    var l, m := LastColumns(p + [h], values), LastColumns(p, values)[h := CellFor(h, TokenAt(values, |p|))];
    forall k
      ensures k in l <==> k in m
    {
      LastColumnsSnocKeys(p, h, values, k);
    }
    forall k | k in l
      ensures l[k] == m[k]
    {
      LastColumnsSnocAt(p, h, values, k);
    }
  }

  /** Appending one header to the prefix adds its field on top. */
  lemma LastColumnsStep(headers: seq<string>, values: seq<string>, n: nat)
    requires 0 < n <= |headers|
    ensures LastColumns(headers[..n], values)
            == LastColumns(headers[..n - 1], values)[headers[n - 1] := CellFor(headers[n - 1], TokenAt(values, n - 1))]
  {
    assert headers[..n] == headers[..n - 1] + [headers[n - 1]];
    LastColumnsSnoc(headers[..n - 1], headers[n - 1], values);
  }

  lemma AssignedStep(headers: seq<string>, values: seq<string>, n: nat)
    requires 0 < n <= |headers|
    ensures Assigned(headers, values, n)
            == Assigned(headers, values, n - 1)[headers[n - 1] := CellFor(headers[n - 1], TokenAt(values, n - 1))]
  {
  }

  lemma AssignedNone(headers: seq<string>, values: seq<string>)
    ensures Assigned(headers, values, 0) == LastColumns(headers[..0], values)
  {
    assert headers[..0] == [];
    assert LastColumns([], values) == map[];
  }

  /** If the first n - 1 columns leave each name with its last field, so do
      the first n. */
  lemma AssignedNext(headers: seq<string>, values: seq<string>, n: nat)
    requires 0 < n <= |headers|
    requires Assigned(headers, values, n - 1) == LastColumns(headers[..n - 1], values)
    ensures Assigned(headers, values, n) == LastColumns(headers[..n], values)
  {
    var c := CellFor(headers[n - 1], TokenAt(values, n - 1));
    assert Assigned(headers, values, n) == Assigned(headers, values, n - 1)[headers[n - 1] := c] by {
      AssignedStep(headers, values, n);
    }
    assert LastColumns(headers[..n], values) == LastColumns(headers[..n - 1], values)[headers[n - 1] := c] by {
      LastColumnsStep(headers, values, n);
    }
  }

  /** Assigning the columns in order leaves each name with its last
      column's field. */
  lemma {:induction false} AssignedIsLastColumns(headers: seq<string>, values: seq<string>, n: nat)
    requires n <= |headers|
    ensures Assigned(headers, values, n) == LastColumns(headers[..n], values)
  {
    if n == 0 {
      AssignedNone(headers, values);
    } else {
      AssignedIsLastColumns(headers, values, n - 1);
      AssignedNext(headers, values, n);
    }
  }

  /** `entry` for one line: every column assigned in order. */
  function Record(headers: seq<string>, values: seq<string>): (e: Entry)
    ensures e == LastColumns(headers, values)
  {
    AssignedIsLastColumns(headers, values, |headers|);
    assert headers[..|headers|] == headers;
    Assigned(headers, values, |headers|)
  }

  /** The records `parseCSV` keeps: a truthy `act` and a truthy `prompt`. */
  predicate Listed(e: Entry) {
    Has(e, "act") && Has(e, "prompt")
  }

  /** `parseCSV(csv)`, with the per-line value tokenizer as a parameter:
      every line after the first becomes a record over the header's
      columns, and only records with an act and a prompt are kept. */
  function ParseCsv(csv: string, tokenize: string -> seq<string>): (r: seq<Entry>)
    ensures forall e :: e in r <==>
              Listed(e) && exists line :: line in Split(csv, '\n')[1..] && e == Record(Headers(csv), tokenize(line))
    ensures |r| < |Split(csv, '\n')|
    ensures r == Filter(Map(line => Record(Headers(csv), tokenize(line)), Split(csv, '\n')[1..]), Listed)
  {
    var lines, headers := Split(csv, '\n'), Headers(csv);
    var toRecord := line => Record(headers, tokenize(line));
    ListedMembers(toRecord, lines[1..]);
    Filter(Map(toRecord, lines[1..]), Listed)
  }

  /** The listed records of some lines are those records of the lines that
      are listed. */
  lemma ListedMembers(toRecord: string -> Entry, lines: seq<string>)
    ensures forall e :: e in Filter(Map(toRecord, lines), Listed) <==>
              Listed(e) && exists line :: line in lines && e == toRecord(line)
  {
    MapMembers(toRecord, lines);
  }

  /** The `for_devs` field of a listed record says whether its token reads
      `TRUE` in upper case. */
  lemma ForDevsField(headers: seq<string>, values: seq<string>)
    requires "for_devs" in headers
    ensures var c := Record(headers, values)["for_devs"];
            c.Flag? && (c.b <==> Upper(Clean(TokenAt(values, LastIndex(headers, "for_devs")))) == "TRUE")
  {
  }

  /** Upper-casing gives the capital `up` exactly for `up` and its small
      letter `low`. */
  lemma UpperCharIs(c: char, low: char, up: char)
    requires 'A' <= up <= 'Z' && low as int == up as int + 32
    ensures UpperChar(c) == up <==> c == low || c == up
  {
  }

  lemma ReadsTrue(u: string)
    requires |u| == 4
    ensures u == "TRUE" <==> u[0] == 'T' && u[1] == 'R' && u[2] == 'U' && u[3] == 'E'
  {
    if u[0] == 'T' && u[1] == 'R' && u[2] == 'U' && u[3] == 'E' {
      assert u == [u[0], u[1], u[2], u[3]];
    }
  }

  /** Upper-casing gives `TRUE` exactly for the spellings of `true` in any
      mix of cases. */
  lemma UpperTrue(s: string)
    ensures Upper(s) == "TRUE" <==>
              && |s| == 4
              && (s[0] == 't' || s[0] == 'T') && (s[1] == 'r' || s[1] == 'R')
              && (s[2] == 'u' || s[2] == 'U') && (s[3] == 'e' || s[3] == 'E')
  {
    if |s| == 4 {
      ReadsTrue(Upper(s));
      UpperCharIs(s[0], 't', 'T');
      UpperCharIs(s[1], 'r', 'R');
      UpperCharIs(s[2], 'u', 'U');
      UpperCharIs(s[3], 'e', 'E');
    }
  }

  // ---- audience ----

  /** Whether a card is shown for the selected audience: developers see only
      records marked `for_devs`. */
  predicate ShownFor(audience: string, e: Entry) {
    !(audience == "developers" && !Has(e, "for_devs"))
  }

  /** The cards `createPromptCards` builds, in order. */
  function Cards(records: seq<Entry>, audience: string): (r: seq<Entry>)
    ensures audience != "developers" ==> r == records
    ensures forall e :: e in r <==> e in records && (audience == "developers" ==> Has(e, "for_devs"))
    ensures r == Filter(records, e => ShownFor(audience, e))
  {
    var keep := e => ShownFor(audience, e);
    if audience != "developers" then
      FilterAllKept(records, keep);
      Filter(records, keep)
    else
      Filter(records, keep)
  }

  // ---- search ----

  /** A text field of a record, or the empty text. */
  function TextOf(e: Entry, key: string): string {
    if key in e && e[key].Text? then e[key].s else ""
  }

  /** Whether a record matches a lower-cased search term. */
  predicate Matches(e: Entry, term: string) {
    Contains(Lower(TextOf(e, "act")), term) || Contains(Lower(TextOf(e, "prompt")), term)
  }

  /** The search results: nothing for an empty query, otherwise the records
      whose act or prompt, lower-cased, contains the lower-cased query. */
  function Search(records: seq<Entry>, query: string): (r: seq<Entry>)
    ensures query == "" ==> r == []
    ensures query != "" ==> forall e :: e in r <==> e in records && Matches(e, Lower(query))
    ensures query != "" ==> r == Filter(records, e => Matches(e, Lower(query)))
  {
    var term := Lower(query);
    if term == "" then [] else Filter(records, e => Matches(e, term))
  }

  lemma ContainsTransitive(hay: string, mid: string, needle: string)
    requires Contains(hay, mid) && Contains(mid, needle)
    ensures Contains(hay, needle)
  {
    var i :| OccursAt(hay, mid, i);
    var j :| OccursAt(mid, needle, j);
    assert hay[i..i + |mid|] == mid;
    forall k | 0 <= k < |needle|
      ensures hay[i + j..i + j + |needle|][k] == needle[k]
    {
      assert hay[i + j + k] == hay[i..i + |mid|][j + k];
      assert mid[j..j + |needle|][k] == mid[j + k];
    }
    assert OccursAt(hay, needle, i + j);
  }

  /** Narrowing the query narrows the results: every record found for a
      query is found for any non-empty part of it. */
  lemma SearchNarrows(records: seq<Entry>, query: string, part: string)
    requires part != "" && Contains(Lower(query), Lower(part))
    ensures forall e :: e in Search(records, query) ==> e in Search(records, part)
  {
    forall e | e in Search(records, query)
      ensures e in Search(records, part)
    {
      if Contains(Lower(TextOf(e, "act")), Lower(query)) {
        ContainsTransitive(Lower(TextOf(e, "act")), Lower(query), Lower(part));
      } else {
        ContainsTransitive(Lower(TextOf(e, "prompt")), Lower(query), Lower(part));
      }
    }
  }

  // ---- count label ----

  /** The text of the count label. */
  function CountLabel(filtered: nat, total: nat): (r: string)
    ensures filtered >= total <==> r == "All Prompts"
  {
    if filtered < total then
      var r := "Found " + Decimal(filtered) + " of " + Decimal(total);
      assert r[0] == 'F';
      r
    else "All Prompts"
  }

  lemma CountLabelText(f: nat, t: nat)
    requires f < t
    ensures CountLabel(f, t) == "Found " + (Decimal(f) + " of " + Decimal(t))
  {
  }

  lemma DropPrefix(p: string, x: string, y: string)
    requires p + x == p + y
    ensures x == y
  {
    assert x == (p + x)[|p|..];
  }

  /** A digit text followed by `" of "` is read back up to the space. */
  lemma SplitAtSpace(a: string, b: string, c: string, d: string)
    requires forall i :: 0 <= i < |a| ==> IsDigit(a[i])
    requires forall i :: 0 <= i < |c| ==> IsDigit(c[i])
    requires a + " of " + b == c + " of " + d
    ensures a == c && b == d
  {
    var s := a + " of " + b;
    IndexOfUnique(s, ' ', |a|);
    IndexOfUnique(c + " of " + d, ' ', |c|);
    assert s[..|a|] == a;
    assert (c + " of " + d)[..|c|] == c;
    assert s[|a| + 4..] == b;
    assert (c + " of " + d)[|c| + 4..] == d;
  }

  /** The label names both counts whenever some records are hidden: equal
      labels of that kind come from equal counts. */
  lemma CountLabelInjective(f1: nat, t1: nat, f2: nat, t2: nat)
    requires f1 < t1 && f2 < t2
    requires CountLabel(f1, t1) == CountLabel(f2, t2)
    ensures f1 == f2 && t1 == t2
  {
    var a, b, c, d := Decimal(f1), Decimal(t1), Decimal(f2), Decimal(t2);
    assert a + " of " + b == c + " of " + d by {
      CountLabelText(f1, t1);
      CountLabelText(f2, t2);
      DropPrefix("Found ", a + " of " + b, c + " of " + d);
    }
    SplitAtSpace(a, b, c, d);
    DecimalInjective(f1, f2);
    DecimalInjective(t1, t2);
  }
}
