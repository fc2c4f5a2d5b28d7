/**
 * The asset store of the currency conversion service: the `assets` table,
 * keyed by name, with first-write-wins inserts; the upload handler that saves
 * the three expected form fields; and the reader that returns each stored
 * image as a base64 data URI.
 */
module Assets {
  import opened Wrappers
  import Base64

  type Bytes = seq<Base64.byte>

  /** The form fields the upload handler looks for, in the order it tries them. */
  const ExpectedFields: seq<string> := ["watermark", "md_signature", "logo"]

  /** The names the reader's query selects. */
  const AssetNames: set<string> := {"logo", "watermark", "md_signature"}

  const DataUriPrefix: string := "data:image/png;base64,"

  /** How an image is returned to the client. */
  function DataUri(content: Bytes): (uri: string)
    ensures |uri| == |DataUriPrefix| + 4 * ((|content| + 2) / 3)
    ensures uri[..|DataUriPrefix|] == DataUriPrefix
  {
    DataUriPrefix + Base64.Encode(content)
  }

  /** After the prefix, a data URI is base64 text that decodes back to the content. */
  lemma DataUriDecodes(content: Bytes)
    ensures Base64.Decode(DataUri(content)[|DataUriPrefix|..]) == Some(content)
  {
    assert DataUri(content)[|DataUriPrefix|..] == Base64.Encode(content);
    Base64.DecodeEncode(content);
  }

  /** The effect of `INSERT ... ON CONFLICT (name) DO NOTHING` on the table. */
  function Upsert(t: map<string, Bytes>, name: string, content: Bytes): (r: map<string, Bytes>)
    ensures r.Keys == t.Keys + {name}
    ensures forall n :: n in t ==> r[n] == t[n]
    ensures name !in t ==> r[name] == content
  {
    if name in t then t else t[name := content]
  }

  /** A second write under a name changes nothing: the first content is kept. */
  lemma FirstWriteWins(t: map<string, Bytes>, name: string, first: Bytes, second: Bytes)
    ensures Upsert(Upsert(t, name, first), name, second) == Upsert(t, name, first)
    ensures name !in t ==> Upsert(Upsert(t, name, first), name, second)[name] == first
  {
  }

  /**
   * One file of the multipart form: its bytes, or a part whose reading
   * fails. A field absent from the form is a missing key.
   */
  datatype FilePart = Readable(content: Bytes) | Unreadable

  type Form = map<string, FilePart>

  /** One turn of the upload loop: save the field if the form has it readable, else skip it. */
  function SaveField(t: map<string, Bytes>, form: Form, field: string): (r: map<string, Bytes>)
    ensures r.Keys <= t.Keys + {field}
    ensures forall n :: n in t ==> n in r && r[n] == t[n]
    ensures field in form && form[field].Readable? && field !in t ==>
              field in r && r[field] == form[field].content
    ensures !(field in form && form[field].Readable?) ==> r == t
  {
    if field in form && form[field].Readable? then Upsert(t, field, form[field].content) else t
  }

  /** The upload loop over `fields`, in order. */
  function SaveFields(t: map<string, Bytes>, form: Form, fields: seq<string>): (r: map<string, Bytes>)
    ensures r.Keys == t.Keys + set f | f in fields && f in form && form[f].Readable?
    ensures forall n :: n in t ==> r[n] == t[n]
    ensures forall f :: f in fields && f in form && form[f].Readable? && f !in t ==>
              r[f] == form[f].content
    decreases |fields|
  {
    if fields == [] then t
    else
      var fs := fields[..|fields| - 1];
      assert fields == fs + [fields[|fields| - 1]];
      SaveField(SaveFields(t, form, fs), form, fields[|fields| - 1])
  }

  /** The upload loop writes no name outside the fields it walks. */
  lemma UploadWritesOnlyFields(t: map<string, Bytes>, form: Form, n: string)
    requires n !in ExpectedFields
    ensures n in SaveFields(t, form, ExpectedFields) <==> n in t
    ensures n in t ==> SaveFields(t, form, ExpectedFields)[n] == t[n]
  {
  }

  /** A missing or unreadable field is skipped; the fields after it are still saved. */
  lemma SkippedFieldDoesNotStopLoop(t: map<string, Bytes>, logo: Bytes)
    requires "logo" !in t
    ensures SaveFields(t, map["logo" := Readable(logo)], ExpectedFields)["logo"] == logo
    ensures SaveFields(t, map["watermark" := Unreadable, "logo" := Readable(logo)], ExpectedFields)["logo"] == logo
  {
  }

  /** The `assets` table, holding the content stored under each name. */
  class AssetTable {
    var assets: map<string, Bytes>

    constructor ()
      ensures assets == map[]
    {
      assets := map[];
    }

    /** Insert `content` under `name` unless the name already has a row. */
    method SaveAsset(name: string, content: Bytes)
      modifies this
      ensures assets == Upsert(old(assets), name, content)
      ensures name in old(assets) ==> assets == old(assets)
      ensures name !in old(assets) ==> assets == old(assets)[name := content]
    {
      if name !in assets {
        assets := assets[name := content];
      }
    }

    /**
     * The upload handler. `form` is None when the multipart form does not
     * parse. Each expected field that is missing or unreadable is skipped
     * and the loop goes on with the next one.
     */
    method UploadAsset(form: Option<Form>) returns (r: Response<string>)
      modifies this
      ensures form.None? ==> r == BadRequest("Unable to parse form") && assets == old(assets)
      ensures form.Some? ==> r == Ok("Files uploaded successfully")
      ensures form.Some? ==> assets == SaveFields(old(assets), form.value, ExpectedFields)
      ensures forall n :: n in old(assets) ==> n in assets && assets[n] == old(assets)[n]
      ensures assets.Keys <= old(assets).Keys + AssetNames
    {
      if form.None? {
        return BadRequest("Unable to parse form");
      }
      var f := form.value;
      for i := 0 to |ExpectedFields|
        invariant assets == SaveFields(old(assets), f, ExpectedFields[..i])
      {
        var field := ExpectedFields[i];
        assert ExpectedFields[..i + 1] == ExpectedFields[..i] + [field];
        if field !in f {
          continue;
        }
        var part := f[field];
        if part.Unreadable? {
          continue;
        }
        SaveAsset(field, part.content);
      }
      assert ExpectedFields[..|ExpectedFields|] == ExpectedFields;
      r := Ok("Files uploaded successfully");
    }
  }

  /** A row of the reader's query: a name and content, or a row that fails to scan. */
  datatype Row = Row(name: string, content: Bytes, createdAt: int) | Unscannable(name: string, createdAt: int)

  /**
   * The reader's loop over the rows in iteration order: every row sets its
   * name's entry, so a later row overwrites an earlier one. None when a row
   * fails to scan.
   */
  function Collect(rows: seq<Row>): (r: Option<map<string, string>>)
    ensures r.Some? ==> |r.value| <= |rows|
    decreases |rows|
  {
    if rows == [] then Some(map[])
    else
      var last := rows[|rows| - 1];
      match Collect(rows[..|rows| - 1])
      case None => None
      case Some(m) =>
        if last.Unscannable? then None else Some(m[last.name := DataUri(last.content)])
  }

  /** Names of the rows, as a set. */
  function RowNames(rows: seq<Row>): set<string> {
    set k | 0 <= k < |rows| :: rows[k].name
  }

  /** Row `k` is the last row of `rows` that carries its name. */
  predicate IsLastWithName(rows: seq<Row>, k: int)
    requires 0 <= k < |rows|
  {
    forall j :: k < j < |rows| ==> rows[j].name != rows[k].name
  }

  predicate HasUnscannable(rows: seq<Row>) {
    exists k :: 0 <= k < |rows| && rows[k].Unscannable?
  }

  lemma HasUnscannableSnoc(rows: seq<Row>)
    requires rows != []
    ensures HasUnscannable(rows) <==> HasUnscannable(rows[..|rows| - 1]) || rows[|rows| - 1].Unscannable?
  {
    var init := rows[..|rows| - 1];
    if HasUnscannable(init) {
      var k :| 0 <= k < |init| && init[k].Unscannable?;
      assert rows[k].Unscannable?;
    }
    if HasUnscannable(rows) {
      var k :| 0 <= k < |rows| && rows[k].Unscannable?;
      if k < |init| {
        assert init[k].Unscannable?;
      }
    }
  }

  /** The reader fails exactly when some row fails to scan. */
  lemma {:induction false} CollectFails(rows: seq<Row>)
    ensures Collect(rows).None? <==> HasUnscannable(rows)
    decreases |rows|
  {
    if rows != [] {
      CollectFails(rows[..|rows| - 1]);
      HasUnscannableSnoc(rows);
    }
  }

  /** The result has an entry for the name of every row, and for no other name. */
  lemma {:induction false} CollectKeys(rows: seq<Row>)
    requires Collect(rows).Some?
    ensures Collect(rows).value.Keys == RowNames(rows)
    decreases |rows|
  {
    if rows != [] {
      var init := rows[..|rows| - 1];
      CollectKeys(init);
      assert RowNames(rows) == RowNames(init) + {rows[|rows| - 1].name} by {
        forall n | n in RowNames(rows)
          ensures n in RowNames(init) + {rows[|rows| - 1].name}
        {
          var k :| 0 <= k < |rows| && rows[k].name == n;
          if k < |rows| - 1 {
            assert init[k].name == n;
          }
        }
        forall n | n in RowNames(init)
          ensures n in RowNames(rows)
        {
          var k :| 0 <= k < |init| && init[k].name == n;
          assert rows[k].name == n;
        }
      }
    }
  }

  /** The entry for a name is the data URI of the last row with that name. */
  lemma {:induction false} CollectLastWins(rows: seq<Row>, k: int)
    requires Collect(rows).Some?
    requires 0 <= k < |rows| && IsLastWithName(rows, k)
    ensures rows[k].Row?
    ensures rows[k].name in Collect(rows).value
    ensures Collect(rows).value[rows[k].name] == DataUri(rows[k].content)
    decreases |rows|
  {
    var init := rows[..|rows| - 1];
    CollectFails(rows);
    if k < |rows| - 1 {
      assert IsLastWithName(init, k) by {
        forall j | k < j < |init| ensures init[j].name != init[k].name {
          assert init[j] == rows[j];
        }
      }
      CollectLastWins(init, k);
    }
  }

  /**
   * The reader: `rows` is what the query returns, in iteration order, or None
   * when the query fails. It answers 500 on a failed query or a row that does
   * not scan, and otherwise the map built by the loop.
   */
  method GetLatestAssets(rows: Option<seq<Row>>) returns (r: Response<map<string, string>>)
    ensures rows.None? ==> r == InternalError("Error fetching assets")
    ensures rows.Some? && HasUnscannable(rows.value) ==> r == InternalError("Scan failed")
    ensures rows.Some? && !HasUnscannable(rows.value) ==> r.Ok? && Collect(rows.value) == Some(r.body)
    ensures r.Ok? ==> rows.Some? && r.body.Keys == RowNames(rows.value)
    ensures r.Ok? ==> forall k :: 0 <= k < |rows.value| && IsLastWithName(rows.value, k) ==>
              rows.value[k].Row? && r.body[rows.value[k].name] == DataUri(rows.value[k].content)
  {
    if rows.None? {
      return InternalError("Error fetching assets");
    }
    var rs := rows.value;
    var assets: map<string, string> := map[];
    var i := 0;
    while i < |rs|
      invariant 0 <= i <= |rs|
      invariant Collect(rs[..i]) == Some(assets)
    {
      var row := rs[i];
      assert rs[..i + 1][..i] == rs[..i];
      if row.Unscannable? {
        assert HasUnscannable(rs);
        CollectFails(rs);
        return InternalError("Scan failed");
      }
      assets := assets[row.name := DataUri(row.content)];
      i := i + 1;
    }
    assert rs[..|rs|] == rs;
    CollectFails(rs);
    CollectKeys(rs);
    forall k | 0 <= k < |rs| && IsLastWithName(rs, k)
      ensures rs[k].Row? && assets[rs[k].name] == DataUri(rs[k].content)
    {
      CollectLastWins(rs, k);
    }
    r := Ok(assets);
  }

  /** Each row of the query carries one of the three asset names (its WHERE clause). */
  predicate SelectsAssetNames(rows: seq<Row>) {
    forall k :: 0 <= k < |rows| ==> rows[k].name in AssetNames
  }

  /** The rows come newest first (the query's ORDER BY created_at DESC). */
  predicate NewestFirst(rows: seq<Row>) {
    forall j, k :: 0 <= j < k < |rows| ==> rows[j].createdAt >= rows[k].createdAt
  }

  /** The reader's result has keys drawn only from the three asset names. */
  lemma LatestKeysAreAssetNames(rows: seq<Row>)
    requires SelectsAssetNames(rows) && Collect(rows).Some?
    ensures Collect(rows).value.Keys <= AssetNames
  {
    CollectKeys(rows);
  }

  /** The last row with name `n`. */
  lemma {:induction false} LastWithName(rows: seq<Row>, n: string) returns (k: int)
    requires n in RowNames(rows)
    ensures 0 <= k < |rows| && rows[k].name == n && IsLastWithName(rows, k)
    decreases |rows|
  {
    var init := rows[..|rows| - 1];
    if rows[|rows| - 1].name == n {
      k := |rows| - 1;
    } else {
      var i :| 0 <= i < |rows| && rows[i].name == n;
      assert init[i].name == n;
      k := LastWithName(init, n);
      assert rows[k] == init[k];
    }
  }

  /**
   * With the rows newest first, the entry for each name comes from the
   * oldest of its rows.
   */
  lemma LatestIsOldest(rows: seq<Row>, n: string) returns (k: int)
    requires NewestFirst(rows) && Collect(rows).Some? && n in Collect(rows).value
    ensures 0 <= k < |rows| && rows[k].Row? && rows[k].name == n
    ensures Collect(rows).value[n] == DataUri(rows[k].content)
    ensures forall j :: 0 <= j < |rows| && rows[j].name == n ==> rows[k].createdAt <= rows[j].createdAt
  {
    CollectKeys(rows);
    k := LastWithName(rows, n);
    CollectLastWins(rows, k);
    forall j | 0 <= j < |rows| && rows[j].name == n
      ensures rows[k].createdAt <= rows[j].createdAt
    {
      if j < k {
        assert rows[j].createdAt >= rows[k].createdAt;
      }
    }
  }

  /** `rows` lists the table's entries under the three asset names, each once. */
  predicate ListsTable(t: map<string, Bytes>, rows: seq<Row>) {
    && (forall k :: 0 <= k < |rows| ==>
          rows[k].Row? && rows[k].name in AssetNames && rows[k].name in t && rows[k].content == t[rows[k].name])
    && (forall n :: n in t && n in AssetNames ==> n in RowNames(rows))
    && (forall j, k :: 0 <= j < k < |rows| ==> rows[j].name != rows[k].name)
  }

  /** Read back from a table with unique names, the result is every stored asset's data URI. */
  lemma LatestOfTable(t: map<string, Bytes>, rows: seq<Row>)
    requires ListsTable(t, rows)
    ensures Collect(rows) == Some(map n | n in t && n in AssetNames :: DataUri(t[n]))
  {
    CollectFails(rows);
    CollectKeys(rows);
    var m := Collect(rows).value;
    var want := map n | n in t && n in AssetNames :: DataUri(t[n]);
    assert m.Keys == want.Keys by {
      forall n | n in RowNames(rows) ensures n in t && n in AssetNames {
        var k :| 0 <= k < |rows| && rows[k].name == n;
      }
    }
    forall n | n in m
      ensures m[n] == want[n]
    {
      var k :| 0 <= k < |rows| && rows[k].name == n;
      CollectLastWins(rows, k);
    }
    assert m == want;
  }

  /** A form holding only a "logo" file amounts to one SaveAsset of the logo. */
  lemma UploadLogoOnly(t: map<string, Bytes>, logo: Bytes)
    ensures SaveFields(t, map["logo" := Readable(logo)], ExpectedFields) == Upsert(t, "logo", logo)
  {
    var form := map["logo" := Readable(logo)];
    assert ExpectedFields[..2] == ["watermark", "md_signature"];
    assert SaveFields(t, form, ExpectedFields[..2]) == t by {
      assert ExpectedFields[..2][..1] == ["watermark"];
      assert ["watermark"][..0] == [];
    }
  }

  /** Uploading "logo" as `first` and then as `second` into an empty table keeps `first`. */
  lemma UploadTwiceKeepsFirst(first: Bytes, second: Bytes)
    ensures SaveFields(SaveFields(map[], map["logo" := Readable(first)], ExpectedFields),
                       map["logo" := Readable(second)], ExpectedFields) == map["logo" := first]
  {
    var t1 := SaveFields(map[], map["logo" := Readable(first)], ExpectedFields);
    UploadLogoOnly(map[], first);
    UploadLogoOnly(t1, second);
    FirstWriteWins(map[], "logo", first, second);
  }

  /**
   * After those two uploads the reader returns the data URI of `first`,
   * which decodes back to `first`.
   */
  lemma UploadTwiceReadsFirst(first: Bytes, second: Bytes, rows: seq<Row>)
    requires ListsTable(SaveFields(SaveFields(map[], map["logo" := Readable(first)], ExpectedFields),
                                   map["logo" := Readable(second)], ExpectedFields), rows)
    ensures Collect(rows) == Some(map["logo" := DataUri(first)])
    ensures Base64.Decode(Collect(rows).value["logo"][|DataUriPrefix|..]) == Some(first)
  {
    UploadTwiceKeepsFirst(first, second);
    ReadsOnlyLogo(first, rows);
    DataUriDecodes(first);
  }

  /** A table holding only a logo reads back as that logo's data URI. */
  lemma ReadsOnlyLogo(logo: Bytes, rows: seq<Row>)
    requires ListsTable(map["logo" := logo], rows)
    ensures Collect(rows) == Some(map["logo" := DataUri(logo)])
  {
    var t := map["logo" := logo];
    LatestOfTable(t, rows);
    assert (map n | n in t && n in AssetNames :: DataUri(t[n])) == map["logo" := DataUri(logo)];
  }
}
