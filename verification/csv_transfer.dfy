/** CSV export and import of trinity posts
    (wp-impossible-trinity/includes/class-it-export-import.php).

    Export writes a byte-order mark, a fixed header of fourteen column names
    and one row per post. Import reads a header, pairs every row with it the
    way `array_combine` does, skips rows missing a required field, and
    inserts one new post per remaining row with defaults for absent columns.
    Cells are modelled after CSV decoding: quoting is not modelled. */
module CsvTransfer {
  import opened Wrappers
  import Php

  /** The export header, in the order it is written. */
  const Columns: seq<string> := [
    "name", "name_en", "field", "element1", "element2", "element3", "description",
    "element1_sacrifice_explanation", "element2_sacrifice_explanation",
    "element3_sacrifice_explanation", "hyperlink",
    "element1_image_url", "element2_image_url", "element3_image_url"]

  /** The columns stored as post meta: all but the title and the content. */
  const MetaColumns: set<string> := {
    "name_en", "field", "element1", "element2", "element3",
    "element1_sacrifice_explanation", "element2_sacrifice_explanation",
    "element3_sacrifice_explanation", "hyperlink",
    "element1_image_url", "element2_image_url", "element3_image_url"}

  /** The meta key a column is stored under. */
  function MetaKey(c: string): (k: string)
    ensures |k| == |c| + 1 && k[0] == '_' && k[1..] == c
  {
    "_" + c
  }

  /** The UTF-8 byte-order mark written before the header. */
  const Bom: string := "\U{FEFF}"

  lemma ColumnsDistinct()
    ensures forall i, j :: 0 <= i < j < |Columns| ==> Columns[i] != Columns[j]
  {
  }

  // ---------------------------------------------------------------- export

  /** A post as the export loop reads it. `title` is what `get_the_title()`
      returns, that is the stored title after the `the_title` filters (such
      as wptexturize's curly quotes and ellipsis entities), not the raw
      `post_title`. `content` is what `get_the_content()` returns inside that
      loop: the stored content, except that a post with a `<!--more-->` tag
      gives only its teaser followed by the more-link text, one with
      `<!--nextpage-->` only its first page, and a password-protected one the
      password form. `meta` holds the stored meta values. The export queries
      posts of every status. */
  datatype WpPost = WpPost(title: string, content: string, meta: map<string, string>)

  /** `get_post_meta($id, $key, true)`: the stored value, or "" when none. */
  function MetaOr(p: WpPost, key: string): string
  {
    if key in p.meta then p.meta[key] else ""
  }

  /** One exported row, in the order the export code lists its values;
      `stripTags` stands for `strip_tags`, so the description cell is
      `strip_tags(get_the_content())`. */
  function ExportRow(p: WpPost, stripTags: string -> string): (row: seq<string>)
    ensures |row| == |Columns|
  {
    [p.title, MetaOr(p, MetaKey("name_en")), MetaOr(p, MetaKey("field")),
     MetaOr(p, MetaKey("element1")), MetaOr(p, MetaKey("element2")), MetaOr(p, MetaKey("element3")),
     stripTags(p.content),
     MetaOr(p, MetaKey("element1_sacrifice_explanation")), MetaOr(p, MetaKey("element2_sacrifice_explanation")),
     MetaOr(p, MetaKey("element3_sacrifice_explanation")), MetaOr(p, MetaKey("hyperlink")),
     MetaOr(p, MetaKey("element1_image_url")), MetaOr(p, MetaKey("element2_image_url")),
     MetaOr(p, MetaKey("element3_image_url"))]
  }

  /** What the header column names: the title, the stripped content, or the
      meta value under that column's key. */
  function Cell(p: WpPost, c: string, stripTags: string -> string): string
  {
    if c == "name" then p.title
    else if c == "description" then stripTags(p.content)
    else MetaOr(p, MetaKey(c))
  }

  /** The row and the header written separately agree: every cell holds the
      value its header column names. */
  lemma ExportRowMatchesHeader(p: WpPost, stripTags: string -> string)
    ensures forall i :: 0 <= i < |Columns| ==> ExportRow(p, stripTags)[i] == Cell(p, Columns[i], stripTags)
  {
    var row := ExportRow(p, stripTags);
    forall i | 0 <= i < |Columns|
      ensures row[i] == Cell(p, Columns[i], stripTags)
    {
      if i == 0 {} else if i == 1 {} else if i == 2 {} else if i == 3 {} else if i == 4 {}
      else if i == 5 {} else if i == 6 {} else if i == 7 {} else if i == 8 {} else if i == 9 {}
      else if i == 10 {} else if i == 11 {} else if i == 12 {} else {}
    }
  }

  /** The header row of an exported file as it reads back: the byte-order
      mark is glued to the first cell. */
  const ExportedHeader: seq<string> := [Bom + Columns[0]] + Columns[1..]

  function ExportRows(posts: seq<WpPost>, stripTags: string -> string): (rows: seq<seq<string>>)
    ensures |rows| == |posts|
    ensures forall i :: 0 <= i < |posts| ==> rows[i] == ExportRow(posts[i], stripTags)
  {
    if |posts| == 0 then [] else [ExportRow(posts[0], stripTags)] + ExportRows(posts[1..], stripTags)
  }

  // ---------------------------------------------------------------- import

  type Data = map<string, string>

  /** `array_combine($header, $row)`: a map from header cells to row cells,
      a later duplicate header overriding an earlier one; a length mismatch
      gives `false` (the PHP 7 behaviour), modelled as `None`. */
  function Combine(header: seq<string>, row: seq<string>): (d: Option<Data>)
    ensures d.Some? <==> |header| == |row|
    ensures d.Some? ==> forall k :: k in d.value <==> k in header
    decreases |header|
  {
    if |header| != |row| then None
    else if |header| == 0 then Some(map[])
    else
      var front := Combine(header[..|header| - 1], row[..|row| - 1]);
      assert header == header[..|header| - 1] + [header[|header| - 1]];
      Some(front.value[header[|header| - 1] := row[|row| - 1]])
  }

  /** With distinct header cells each one maps to its own row cell. */
  lemma {:induction false} CombineLookup(header: seq<string>, row: seq<string>)
    requires |header| == |row|
    requires forall i, j :: 0 <= i < j < |header| ==> header[i] != header[j]
    ensures forall i :: 0 <= i < |header| ==>
              header[i] in Combine(header, row).value && Combine(header, row).value[header[i]] == row[i]
    decreases |header|
  {
    if |header| > 0 {
      var h', r' := header[..|header| - 1], row[..|row| - 1];
      CombineLookup(h', r');
      forall i | 0 <= i < |header|
        ensures Combine(header, row).value[header[i]] == row[i]
      {
        if i < |header| - 1 {
          assert h'[i] == header[i] && r'[i] == row[i];
          assert header[i] != header[|header| - 1];
        }
      }
    }
  }

  /** `$data[$key]`: unset keys, and every key of `false`, read as null. */
  function Field(d: Option<Data>, key: string): Option<string>
  {
    if d.Some? && key in d.value then Some(d.value[key]) else None
  }

  /** A row is imported only with name and the three elements non-empty
      under PHP `empty()`, which also rejects "0". */
  predicate Importable(d: Option<Data>)
  {
    && !Php.Empty(Field(d, "name"))
    && !Php.Empty(Field(d, "element1"))
    && !Php.Empty(Field(d, "element2"))
    && !Php.Empty(Field(d, "element3"))
  }

  /** The value stored for an absent optional column. */
  function Default(c: string): string
  {
    if c == "name_en" then "Impossible Trinity" else ""
  }

  /** `isset($data[$c]) ? $data[$c] : default`. */
  function ValueOr(d: Option<Data>, c: string): string
  {
    Field(d, c).GetOr(Default(c))
  }

  /** The status every imported post is created with. */
  const Publish: string := "publish"

  /** A post `wp_insert_post` is asked to create, with the meta written after. */
  datatype NewPost = NewPost(title: string, content: string, status: string, author: int,
                             meta: map<string, string>)

  /** The meta written for an imported row: each meta column's value or its default. */
  function MetaFor(d: Option<Data>): (m: map<string, string>)
    ensures forall k :: k in m <==> exists c :: c in MetaColumns && k == MetaKey(c)
  {
    map c | c in MetaColumns :: MetaKey(c) := ValueOr(d, c)
  }

  lemma MetaForLookup(d: Option<Data>, c: string)
    requires c in MetaColumns
    ensures MetaKey(c) in MetaFor(d) && MetaFor(d)[MetaKey(c)] == ValueOr(d, c)
  {
    KeyInjective(c);
  }

  /** The post an importable row becomes: a published trinity by the
      importing user, never an update of an existing post. */
  function PostFor(d: Option<Data>, author: int): (p: NewPost)
    requires Importable(d)
    ensures p.title == Field(d, "name").value && p.author == author
    ensures p.content == Field(d, "description").GetOr("")
    ensures p.status == Publish
  {
    NewPost(Field(d, "name").value, ValueOr(d, "description"), Publish, author, MetaFor(d))
  }

  /** Each meta key of an imported post holds its column's value when the
      column is present; otherwise "Impossible Trinity" for `name_en` and ""
      for the rest. The required elements are always taken from the row. */
  lemma PostForMeta(d: Option<Data>, author: int)
    requires Importable(d)
    ensures var m := PostFor(d, author).meta;
            && (forall c :: c in MetaColumns ==> MetaKey(c) in m)
            && (forall c :: c in MetaColumns && Field(d, c).Some? ==> m[MetaKey(c)] == Field(d, c).value)
            && (forall c :: c in MetaColumns && c != "name_en" && Field(d, c).None? ==> m[MetaKey(c)] == "")
            && (Field(d, "name_en").None? ==> m[MetaKey("name_en")] == "Impossible Trinity")
            && m[MetaKey("element1")] == Field(d, "element1").value
            && m[MetaKey("element2")] == Field(d, "element2").value
            && m[MetaKey("element3")] == Field(d, "element3").value
  {
    forall c | c in MetaColumns
      ensures MetaKey(c) in MetaFor(d) && MetaFor(d)[MetaKey(c)] == ValueOr(d, c)
    {
      MetaForLookup(d, c);
    }
  }

  /** Distinct columns have distinct meta keys. */
  lemma KeyInjective(c: string)
    ensures forall c' :: MetaKey(c') == MetaKey(c) ==> c' == c
  {
    forall c' | MetaKey(c') == MetaKey(c)
      ensures c' == c
    {
      assert c' == MetaKey(c')[1..];
    }
  }

  /** The counters and the posts after an import; `site` is the list of
      posts, new ones appended at the end. */
  datatype ImportReport = ImportReport(site: seq<NewPost>, imported: nat, skipped: nat)

  /** The import loop with a failed insert counted as skipped. The outcome
      of `wp_insert_post` for a post is the parameter `inserted`. */
  function ImportRows(keys: seq<string>, rows: seq<seq<string>>, author: int,
                      inserted: NewPost -> bool, site: seq<NewPost>): (r: ImportReport)
    ensures r.imported + r.skipped == |rows|
    ensures |r.site| == |site| + r.imported
    ensures r.site[..|site|] == site
    ensures forall i :: |site| <= i < |r.site| ==> inserted(r.site[i]) && r.site[i].author == author
    decreases |rows|
  {
    if |rows| == 0 then ImportReport(site, 0, 0)
    else
      var d := Combine(keys, rows[0]);
      if !Importable(d) then
        var rest := ImportRows(keys, rows[1..], author, inserted, site);
        rest.(skipped := rest.skipped + 1)
      else if inserted(PostFor(d, author)) then
        var rest := ImportRows(keys, rows[1..], author, inserted, site + [PostFor(d, author)]);
        assert rest.site[..|site|] == (rest.site[..|site| + 1])[..|site|];
        rest.(imported := rest.imported + 1)
      else
        var rest := ImportRows(keys, rows[1..], author, inserted, site);
        rest.(skipped := rest.skipped + 1)
  }

  /** The import loop as written: `wp_insert_post` reports failure by
      returning 0, which `is_wp_error` does not recognise, so the row is
      counted as imported although no post was created. */
  function ImportRowsAsWritten(keys: seq<string>, rows: seq<seq<string>>, author: int,
                               inserted: NewPost -> bool, site: seq<NewPost>): (r: ImportReport)
    ensures r.imported + r.skipped == |rows|
    ensures |site| <= |r.site| <= |site| + r.imported
    ensures r.site[..|site|] == site
    decreases |rows|
  {
    if |rows| == 0 then ImportReport(site, 0, 0)
    else
      var d := Combine(keys, rows[0]);
      if !Importable(d) then
        var rest := ImportRowsAsWritten(keys, rows[1..], author, inserted, site);
        rest.(skipped := rest.skipped + 1)
      else
        var next := if inserted(PostFor(d, author)) then site + [PostFor(d, author)] else site;
        var rest := ImportRowsAsWritten(keys, rows[1..], author, inserted, next);
        assert rest.site[..|site|] == (rest.site[..|next|])[..|site|];
        rest.(imported := rest.imported + 1)
  }

  /** One importable row whose insert fails: the loop as written reports it
      imported while no post exists. */
  lemma FailedInsertCountedAsImported()
    ensures var r := ImportRowsAsWritten(["name", "element1", "element2", "element3"], [["n", "a", "b", "c"]],
                                         7, _ => false, []);
            r.imported == 1 && r.site == []
  {
    var keys, row := ["name", "element1", "element2", "element3"], ["n", "a", "b", "c"];
    CombineLookup(keys, row);
    assert keys[0] == "name" && keys[1] == "element1" && keys[2] == "element2" && keys[3] == "element3";
    assert Importable(Combine(keys, row));
  }

  datatype ImportError = InvalidFile

  /** The header's cells as keys, with a leading byte-order mark removed
      from the first cell. */
  function Keys(header: seq<string>): (keys: seq<string>)
    ensures |keys| == |header|
    ensures |header| > 0 ==>
              keys[0] == (if |header[0]| >= |Bom| && header[0][..|Bom|] == Bom then header[0][|Bom|..] else header[0])
    ensures forall i :: 0 < i < |header| ==> keys[i] == header[i]
  {
    if |header| > 0 && |header[0]| >= |Bom| && header[0][..|Bom|] == Bom then [header[0][|Bom|..]] + header[1..]
    else header
  }

  /** The import handler as intended: a missing header aborts before any
      insert; otherwise every row is accounted for exactly once and new posts
      are only appended. */
  function Import(header: Option<seq<string>>, rows: seq<seq<string>>, author: int,
                  inserted: NewPost -> bool, site: seq<NewPost>): (r: Result<ImportReport, ImportError>)
    ensures header.None? ==> r == Err(InvalidFile)
    ensures header.Some? ==> && r.Ok?
                             && r.value.imported + r.value.skipped == |rows|
                             && |r.value.site| == |site| + r.value.imported
                             && r.value.site[..|site|] == site
  {
    if header.None? then Err(InvalidFile) else Ok(ImportRows(Keys(header.value), rows, author, inserted, site))
  }

  /** The import handler as written: the header is used as read, and a
      failed insert counts as imported. */
  function ImportAsWritten(header: Option<seq<string>>, rows: seq<seq<string>>, author: int,
                           inserted: NewPost -> bool, site: seq<NewPost>): (r: Result<ImportReport, ImportError>)
    ensures header.None? ==> r == Err(InvalidFile)
    ensures header.Some? ==> r.Ok? && r.value.imported + r.value.skipped == |rows|
  {
    if header.None? then Err(InvalidFile) else Ok(ImportRowsAsWritten(header.value, rows, author, inserted, site))
  }

  /** Read back without removing the mark, an exported header has no `name`
      cell, so every row of an exported file is skipped. */
  lemma {:induction false} ExportedFileSkippedAsWritten(posts: seq<WpPost>, stripTags: string -> string, author: int,
                                                         inserted: NewPost -> bool, site: seq<NewPost>)
    ensures var r := ImportAsWritten(Some(ExportedHeader), ExportRows(posts, stripTags), author, inserted, site);
            r.Ok? && r.value.imported == 0 && r.value.skipped == |posts| && r.value.site == site
    decreases |posts|
  {
    if |posts| > 0 {
      var rows := ExportRows(posts, stripTags);
      assert rows[1..] == ExportRows(posts[1..], stripTags);
      var d := Combine(ExportedHeader, rows[0]);
      assert (Bom + Columns[0])[0] == '\U{FEFF}';
      assert "name" !in ExportedHeader;
      assert Field(d, "name") == None;
      ExportedFileSkippedAsWritten(posts[1..], stripTags, author, inserted, site);
    }
  }

  /** The post an exported post becomes when its row is imported: published,
      whatever status it was exported with. */
  function Reimported(p: WpPost, stripTags: string -> string, author: int): NewPost
  {
    NewPost(p.title, stripTags(p.content), Publish, author, StoredMeta(p))
  }

  /** The post's value under the key of every meta column. */
  function StoredMeta(p: WpPost): (m: map<string, string>)
    ensures forall k :: k in m <==> exists c :: c in MetaColumns && k == MetaKey(c)
  {
    map c | c in MetaColumns :: MetaKey(c) := MetaOr(p, MetaKey(c))
  }

  lemma StoredMetaLookup(p: WpPost, c: string)
    requires c in MetaColumns
    ensures MetaKey(c) in StoredMeta(p) && StoredMeta(p)[MetaKey(c)] == MetaOr(p, MetaKey(c))
  {
    KeyInjective(c);
  }

  /** An exported post whose row passes validation. */
  predicate Reimportable(p: WpPost)
  {
    && !Php.Empty(Some(p.title))
    && !Php.Empty(Some(MetaOr(p, MetaKey("element1"))))
    && !Php.Empty(Some(MetaOr(p, MetaKey("element2"))))
    && !Php.Empty(Some(MetaOr(p, MetaKey("element3"))))
  }

  lemma KeysOfExportedHeader()
    ensures Keys(ExportedHeader) == Columns
  {
    var h := ExportedHeader;
    assert h[0] == Bom + "name";
    assert h[0][..|Bom|] == Bom;
    assert h[0][|Bom|..] == "name";
    assert [h[0][|Bom|..]] + h[1..] == Columns;
  }

  /** One row: reading an exported row against the column names gives back
      the title, the stripped content and every meta value under its own key. */
  lemma RowRoundTrip(p: WpPost, stripTags: string -> string, author: int)
    requires Reimportable(p)
    ensures var d := Combine(Columns, ExportRow(p, stripTags));
            Importable(d) && PostFor(d, author) == Reimported(p, stripTags, author)
  {
    var d := Combine(Columns, ExportRow(p, stripTags));
    ExportedCoreFields(p, stripTags);
    ExportedMeta(p, stripTags);
    assert Importable(d);
    assert PostFor(d, author) == NewPost(p.title, stripTags(p.content), Publish, author, StoredMeta(p));
  }

  /** The title, the stripped content and the three elements read back from
      an exported row. */
  lemma ExportedCoreFields(p: WpPost, stripTags: string -> string)
    ensures var d := Combine(Columns, ExportRow(p, stripTags));
            && Field(d, "name") == Some(p.title)
            && Field(d, "description") == Some(stripTags(p.content))
            && Field(d, "element1") == Some(MetaOr(p, MetaKey("element1")))
            && Field(d, "element2") == Some(MetaOr(p, MetaKey("element2")))
            && Field(d, "element3") == Some(MetaOr(p, MetaKey("element3")))
  {
    ExportedFields(p, stripTags);
    CoreColumnsInHeader();
  }

  lemma CoreColumnsInHeader()
    ensures "name" in Columns && "description" in Columns
    ensures "element1" in Columns && "element2" in Columns && "element3" in Columns
  {
    assert Columns[0] == "name" && Columns[3] == "element1" && Columns[4] == "element2"
        && Columns[5] == "element3" && Columns[6] == "description";
  }

  /** The meta read back from an exported row is the post's stored meta. */
  lemma ExportedMeta(p: WpPost, stripTags: string -> string)
    ensures MetaFor(Combine(Columns, ExportRow(p, stripTags))) == StoredMeta(p)
  {
    var d := Combine(Columns, ExportRow(p, stripTags));
    ExportedFields(p, stripTags);
    MetaRoundTrip(p, stripTags, d);
    MetaEqual(p, d);
  }

  /** Meta read back from cells that hold what their columns name carries
      the post's own values. */
  lemma MetaRoundTrip(p: WpPost, stripTags: string -> string, d: Option<Data>)
    requires forall c :: c in Columns ==> Field(d, c) == Some(Cell(p, c, stripTags))
    ensures forall c :: c in MetaColumns ==> ValueOr(d, c) == MetaOr(p, MetaKey(c))
  {
    forall c | c in MetaColumns
      ensures ValueOr(d, c) == MetaOr(p, MetaKey(c))
    {
      MetaColumnInHeader(c);
      assert Field(d, c) == Some(Cell(p, c, stripTags));
    }
  }

  lemma MetaEqual(p: WpPost, d: Option<Data>)
    requires forall c :: c in MetaColumns ==> ValueOr(d, c) == MetaOr(p, MetaKey(c))
    ensures MetaFor(d) == StoredMeta(p)
  {
    forall k | k in MetaFor(d)
      ensures k in StoredMeta(p) && MetaFor(d)[k] == StoredMeta(p)[k]
    {
      var c :| c in MetaColumns && k == MetaKey(c);
      MetaForLookup(d, c);
      StoredMetaLookup(p, c);
    }
  }

  lemma MetaColumnInHeader(c: string)
    requires c in MetaColumns
    ensures c in Columns && c != "name" && c != "description"
  {
  }

  /** Every header column of an exported row reads back as the value it names. */
  lemma ExportedFields(p: WpPost, stripTags: string -> string)
    ensures forall c :: c in Columns ==> Field(Combine(Columns, ExportRow(p, stripTags)), c) == Some(Cell(p, c, stripTags))
  {
    var row := ExportRow(p, stripTags);
    ColumnsDistinct();
    CombineLookup(Columns, row);
    ExportRowMatchesHeader(p, stripTags);
    forall c | c in Columns
      ensures Field(Combine(Columns, row), c) == Some(Cell(p, c, stripTags))
    {
      var i :| 0 <= i < |Columns| && Columns[i] == c;
    }
  }

  /** Each row is decided on its own: it creates one post exactly when it is
      importable and its insert succeeds, and is skipped otherwise. */
  lemma SingleRow(keys: seq<string>, row: seq<string>, author: int, inserted: NewPost -> bool, site: seq<NewPost>)
    ensures var d := Combine(keys, row);
            var r := ImportRows(keys, [row], author, inserted, site);
            && (r.imported == 1 <==> Importable(d) && inserted(PostFor(d, author)))
            && (r.imported == 1 ==> r.site == site + [PostFor(d, author)])
            && (r.imported == 0 ==> r.skipped == 1 && r.site == site)
  {
    assert [row][1..] == [];
  }

  /** An importable first row whose insert succeeds is appended and counted. */
  lemma ImportedStep(keys: seq<string>, rows: seq<seq<string>>, author: int,
                     inserted: NewPost -> bool, site: seq<NewPost>)
    requires |rows| > 0 && Importable(Combine(keys, rows[0]))
    requires inserted(PostFor(Combine(keys, rows[0]), author))
    ensures var rest := ImportRows(keys, rows[1..], author, inserted, site + [PostFor(Combine(keys, rows[0]), author)]);
            ImportRows(keys, rows, author, inserted, site) == rest.(imported := rest.imported + 1)
  {
  }

  /** The posts a list of exported posts becomes, in order. */
  function ReimportedAll(posts: seq<WpPost>, stripTags: string -> string, author: int): (r: seq<NewPost>)
    ensures |r| == |posts|
    ensures forall i :: 0 <= i < |posts| ==> r[i] == Reimported(posts[i], stripTags, author)
  {
    if |posts| == 0 then [] else [Reimported(posts[0], stripTags, author)] + ReimportedAll(posts[1..], stripTags, author)
  }

  /** An exported row that reads back, under `keys`, as an importable post
      equal to the one it came from. */
  predicate ReadsBack(keys: seq<string>, p: WpPost, stripTags: string -> string, author: int)
  {
    var d := Combine(keys, ExportRow(p, stripTags));
    Importable(d) && PostFor(d, author) == Reimported(p, stripTags, author)
  }

  /** The first exported row reads back and is inserted, so it is appended
      and counted before the rest of the file is read. */
  lemma ReadBackStep(keys: seq<string>, posts: seq<WpPost>, stripTags: string -> string,
                     author: int, inserted: NewPost -> bool, site: seq<NewPost>)
    requires |posts| > 0 && ReadsBack(keys, posts[0], stripTags, author)
    requires inserted(Reimported(posts[0], stripTags, author))
    ensures var rest := ImportRows(keys, ExportRows(posts[1..], stripTags), author, inserted,
                                   site + [Reimported(posts[0], stripTags, author)]);
            ImportRows(keys, ExportRows(posts, stripTags), author, inserted, site) == rest.(imported := rest.imported + 1)
  {
    var rows := ExportRows(posts, stripTags);
    assert rows[0] == ExportRow(posts[0], stripTags);
    assert rows[1..] == ExportRows(posts[1..], stripTags);
    ImportedStep(keys, rows, author, inserted, site);
  }

  /** Rows that each read back are all imported, in order, when every insert
      succeeds. */
  lemma {:induction false} ImportRowsReadingBack(keys: seq<string>, posts: seq<WpPost>, stripTags: string -> string,
                                                 author: int, inserted: NewPost -> bool, site: seq<NewPost>)
    requires forall i :: 0 <= i < |posts| ==> ReadsBack(keys, posts[i], stripTags, author)
    requires forall q :: inserted(q)
    ensures var r := ImportRows(keys, ExportRows(posts, stripTags), author, inserted, site);
            r.imported == |posts| && r.skipped == 0 && r.site == site + ReimportedAll(posts, stripTags, author)
    decreases |posts|
  {
    if |posts| > 0 {
      var q := Reimported(posts[0], stripTags, author);
      ReadBackStep(keys, posts, stripTags, author, inserted, site);
      assert forall i :: 0 <= i < |posts| - 1 ==> posts[1..][i] == posts[i + 1];
      ImportRowsReadingBack(keys, posts[1..], stripTags, author, inserted, site + [q]);
      assert ReimportedAll(posts, stripTags, author) == [q] + ReimportedAll(posts[1..], stripTags, author);
      AppendAssoc(site, [q], ReimportedAll(posts[1..], stripTags, author));
    }
  }

  lemma AppendAssoc<T>(a: seq<T>, b: seq<T>, c: seq<T>)
    ensures a + b + c == a + (b + c)
  {
  }

  /** The exported rows of posts that pass validation all import back under
      the column names. */
  lemma ImportExportedRows(posts: seq<WpPost>, stripTags: string -> string, author: int,
                           inserted: NewPost -> bool, site: seq<NewPost>)
    requires forall i :: 0 <= i < |posts| ==> Reimportable(posts[i])
    requires forall q :: inserted(q)
    ensures var r := ImportRows(Columns, ExportRows(posts, stripTags), author, inserted, site);
            r.imported == |posts| && r.skipped == 0 && r.site == site + ReimportedAll(posts, stripTags, author)
  {
    forall i | 0 <= i < |posts| ensures ReadsBack(Columns, posts[i], stripTags, author) {
      RowRoundTrip(posts[i], stripTags, author);
    }
    ImportRowsReadingBack(Columns, posts, stripTags, author, inserted, site);
  }

  /** Export then import, as intended: every post of a file whose rows pass
      validation comes back in order, published, with its title as
      `get_the_title()` showed it, its content as `strip_tags(get_the_content())`
      wrote it and each meta value under the same meta key, when every insert
      succeeds. The cells are taken as stored;
      the `wp_unslash` that `wp_insert_post` and `update_post_meta` apply is
      not modelled. */
  lemma ExportImportRoundTrip(posts: seq<WpPost>, stripTags: string -> string, author: int,
                              inserted: NewPost -> bool, site: seq<NewPost>)
    requires forall i :: 0 <= i < |posts| ==> Reimportable(posts[i])
    requires forall q :: inserted(q)
    ensures var r := Import(Some(ExportedHeader), ExportRows(posts, stripTags), author, inserted, site);
            && r.Ok? && r.value.imported == |posts| && r.value.skipped == 0
            && r.value.site == site + ReimportedAll(posts, stripTags, author)
  {
    KeysOfExportedHeader();
    ImportExportedRows(posts, stripTags, author, inserted, site);
  }
}
