/** Saving the trinity meta box (wp-impossible-trinity/includes/class-it-metaboxes.php):
    four guards, then a partial update of the post's meta restricted to a
    whitelist of twelve fields, each stored under its name prefixed with an
    underscore. Nonce verification and `sanitize_text_field` are parameters. */
module MetaBox {
  import opened Wrappers
  import CsvTransfer

  /** The whitelisted fields, in the order they are saved. */
  const Fields: seq<string> := [
    "name_en", "field", "element1", "element2", "element3",
    "element1_sacrifice_explanation", "element2_sacrifice_explanation",
    "element3_sacrifice_explanation",
    "element1_image_url", "element2_image_url", "element3_image_url",
    "hyperlink"]

  /** The meta key holding the number of agreements, which the form never writes. */
  const AgreeCountKey: string := "_agree_count"

  lemma FieldsDistinct()
    ensures forall i, j :: 0 <= i < j < |Fields| ==> Fields[i] != Fields[j]
  {
  }

  /** What a save request carries: the nonce field, whether WordPress is
      autosaving, whether the user may edit the post, the post's type, and
      the submitted form fields. */
  datatype SaveRequest = SaveRequest(nonce: Option<string>, doingAutosave: bool, canEdit: bool,
                                     postType: string, form: map<string, string>)

  /** Which guard stopped the save, checked in this order, or `Saved`. */
  datatype SaveOutcome = BadNonce | Autosave | NotPermitted | OtherPostType | Saved

  function Guard(req: SaveRequest, nonceValid: string -> bool): (o: SaveOutcome)
    ensures o == Saved <==> req.nonce.Some? && nonceValid(req.nonce.value) && !req.doingAutosave
                            && req.canEdit && req.postType == "impossible_trinity"
    ensures o == BadNonce <==> req.nonce.None? || !nonceValid(req.nonce.value)
  {
    if req.nonce.None? || !nonceValid(req.nonce.value) then BadNonce
    else if req.doingAutosave then Autosave
    else if !req.canEdit then NotPermitted
    else if req.postType != "impossible_trinity" then OtherPostType
    else Saved
  }

  /** A whitelisted field that the save writes. */
  predicate Writes(req: SaveRequest, nonceValid: string -> bool, f: string)
  {
    Guard(req, nonceValid) == Saved && f in Fields && f in req.form
  }

  /** `save_meta_boxes`. When a guard fails the meta is returned unchanged.
      Otherwise every submitted whitelisted field is stored, sanitised, under
      its underscored key; every other key, whitelisted or not, keeps its
      value, and no other key appears. */
  method SaveMetaBoxes(meta: map<string, string>, req: SaveRequest, nonceValid: string -> bool,
                       sanitize: string -> string)
    returns (out: map<string, string>, outcome: SaveOutcome)
    ensures outcome == Guard(req, nonceValid)
    ensures outcome != Saved ==> out == meta
    ensures forall f :: Writes(req, nonceValid, f) ==>
              CsvTransfer.MetaKey(f) in out && out[CsvTransfer.MetaKey(f)] == sanitize(req.form[f])
    ensures forall k :: k in out <==> k in meta || exists f :: Writes(req, nonceValid, f) && k == CsvTransfer.MetaKey(f)
    ensures forall k :: k in meta && (forall f :: Writes(req, nonceValid, f) ==> k != CsvTransfer.MetaKey(f)) ==>
              k in out && out[k] == meta[k]
    ensures AgreeCountKey in meta ==> AgreeCountKey in out && out[AgreeCountKey] == meta[AgreeCountKey]
  {
    outcome := Guard(req, nonceValid);
    out := meta;
    if outcome != Saved {
      return;
    }
    out := WriteFields(meta, Fields, req.form, sanitize);
    forall f | Writes(req, nonceValid, f)
      ensures CsvTransfer.MetaKey(f) in out && out[CsvTransfer.MetaKey(f)] == sanitize(req.form[f])
    {
      var j :| 0 <= j < |Fields| && Fields[j] == f;
    }
    forall k | k in out
      ensures k in meta || exists f :: Writes(req, nonceValid, f) && k == CsvTransfer.MetaKey(f)
    {
      if k !in meta {
        var j :| 0 <= j < |Fields| && Fields[j] in req.form && k == CsvTransfer.MetaKey(Fields[j]);
        assert Writes(req, nonceValid, Fields[j]);
      }
    }
    forall k | k in meta && (forall f :: Writes(req, nonceValid, f) ==> k != CsvTransfer.MetaKey(f))
      ensures k in out && out[k] == meta[k]
    {
      forall j | 0 <= j < |Fields| && Fields[j] in req.form
        ensures k != CsvTransfer.MetaKey(Fields[j])
      {
        assert Writes(req, nonceValid, Fields[j]);
      }
    }
    forall f | Writes(req, nonceValid, f)
      ensures AgreeCountKey != CsvTransfer.MetaKey(f)
    {
      AgreeCountNotField(f);
    }
  }

  /** The write loop over a list of field names: every submitted field is
      stored, sanitised, under its underscored key; every other key keeps its
      value, and no other key appears. */
  method WriteFields(meta: map<string, string>, fields: seq<string>, form: map<string, string>,
                     sanitize: string -> string)
    returns (out: map<string, string>)
    ensures forall j :: 0 <= j < |fields| && fields[j] in form ==>
              CsvTransfer.MetaKey(fields[j]) in out && out[CsvTransfer.MetaKey(fields[j])] == sanitize(form[fields[j]])
    ensures forall k :: k in out <==> k in meta || exists j :: 0 <= j < |fields| && fields[j] in form && k == CsvTransfer.MetaKey(fields[j])
    ensures forall k :: k in meta && (forall j :: 0 <= j < |fields| && fields[j] in form ==> k != CsvTransfer.MetaKey(fields[j])) ==>
              k in out && out[k] == meta[k]
  {
    out := meta;
    var i := 0;
    while i < |fields|
      invariant 0 <= i <= |fields|
      invariant forall j :: 0 <= j < i && fields[j] in form ==>
                  CsvTransfer.MetaKey(fields[j]) in out && out[CsvTransfer.MetaKey(fields[j])] == sanitize(form[fields[j]])
      invariant forall k :: k in out <==> k in meta || exists j :: 0 <= j < i && fields[j] in form && k == CsvTransfer.MetaKey(fields[j])
      invariant forall k :: k in meta && (forall j :: 0 <= j < i && fields[j] in form ==> k != CsvTransfer.MetaKey(fields[j])) ==>
                  k in out && out[k] == meta[k]
    {
      var f := fields[i];
      if f in form {
        CsvTransfer.KeyInjective(f);
        out := out[CsvTransfer.MetaKey(f) := sanitize(form[f])];
      }
      i := i + 1;
    }
  }

  lemma AgreeCountNotField(f: string)
    requires f in Fields
    ensures CsvTransfer.MetaKey(f) != AgreeCountKey
  {
    assert CsvTransfer.MetaKey(f)[1..] == f;
    assert AgreeCountKey[1..] == "agree_count";
    assert "agree_count" !in Fields;
  }

  /** The meta box edits exactly the meta columns the CSV transfer moves. */
  lemma SameFieldsAsCsv()
    ensures forall f :: f in Fields <==> f in CsvTransfer.MetaColumns
  {
  }
}
