/**
 * `POST /api/upload`: store the first part of a multipart form under
 * `public/uploads/<year>/<month>/` and answer with its public URL.
 *
 * The clock (`new Date()` and `Date.now()`), the multipart reader and the
 * file system are inputs: the model takes what they returned or threw.
 */
module Upload {
  import opened Wrappers
  import JsText
  import Uri

  /** One part of the form. `data` is the part's buffer (a buffer is truthy
      even when empty, so only a missing one is `None`); `filename` is
      `None` when the part has none. */
  datatype Part = Part(data: Option<seq<Uri.Byte>>, filename: Option<string>)

  /** What the handler throws: an error created with a status code, or an
      error from elsewhere (the file system) that only has a message. */
  datatype Thrown = Http(status: int, message: string) | Fault(message: string)

  /** The clock: `getFullYear()`, `getMonth()` (0 to 11) of `new Date()`,
      and `Date.now()` in milliseconds. */
  datatype Clock = Clock(year: nat, month: nat, timestamp: nat)

  /** The `data` object of the answer. */
  datatype Uploaded = Uploaded(url: string, filename: string, originalName: string, size: nat)

  /** The characters the file name keeps: `[a-zA-Z0-9.-]`. */
  predicate IsNameChar(c: char) {
    JsText.IsAsciiUpper(c) || JsText.IsAsciiLower(c) || JsText.IsAsciiDigit(c) || c == '.' || c == '-'
  }

  /** The number of UTF-16 code units of `s`, which is what a JavaScript
      string is made of: a character beyond U+FFFF takes two. */
  function Utf16Length(s: string): nat {
    if s == [] then 0
    else Utf16Length(s[..|s| - 1]) + (if s[|s| - 1] as int >= 0x10000 then 2 else 1)
  }

  /** `name.replace(/[^a-zA-Z0-9.-]/g, '_')`. The pattern has no `u` flag,
      so it matches code units: a character beyond U+FFFF becomes `__`. */
  function Sanitize(name: string): (r: string)
    ensures forall k :: 0 <= k < |r| ==> IsNameChar(r[k]) || r[k] == '_'
  {
    if name == [] then []
    else
      var c := name[|name| - 1];
      Sanitize(name[..|name| - 1])
        + (if IsNameChar(c) then [c] else if c as int >= 0x10000 then "__" else "_")
  }

  /** The stored name: `<timestamp>-<sanitised original name>`. */
  function FileName(timestamp: nat, originalName: string): string {
    JsText.NatToDecimal(timestamp) + "-" + Sanitize(originalName)
  }

  /** `String(month + 1).padStart(2, '0')` for `getMonth()` = `month`. */
  function MonthText(month: nat): string
    requires month < 12
  {
    var s := JsText.NatToDecimal(month + 1);
    if |s| < 2 then "0" + s else s
  }

  /** `/uploads/<year>/<month>/<fileName>`. */
  function Url(clock: Clock, fileName: string): string
    requires clock.month < 12
  {
    "/uploads/" + JsText.NatToDecimal(clock.year) + "/" + MonthText(clock.month) + "/" + fileName
  }

  /** The `try` block. `form` is what `readMultipartFormData` returned
      (`None` for `undefined`) or threw; `write` is the error the directory
      and file writes raised, if any. */
  function Attempt(form: Result<Option<seq<Part>>, Thrown>, clock: Clock, write: Option<Thrown>): (r: Result<Uploaded, Thrown>)
    requires clock.month < 12
    ensures form == Ok(None) || form == Ok(Some([])) ==> r == Err(Http(400, "No file uploaded"))
    ensures form.Ok? && form.value.Some? && form.value.value != []
            && (form.value.value[0].data.None? || form.value.value[0].filename.GetOr("") == "")
            ==> r == Err(Http(400, "Invalid file data"))
    ensures form.Err? ==> r == Err(form.error)
    ensures r.Ok? ==> form.Ok? && form.value.Some? && form.value.value != [] && write.None?
    ensures r.Ok? ==>
      var file := form.value.value[0];
      && file.data.Some? && file.filename.Some? && file.filename.value != ""
      && r.value == Uploaded(Url(clock, r.value.filename), FileName(clock.timestamp, file.filename.value),
                             file.filename.value, |file.data.value|)
  {
    match form
    case Err(e) => Err(e)
    case Ok(parts) =>
      if parts.None? || parts.value == [] then Err(Http(400, "No file uploaded"))
      else
        var file := parts.value[0];
        if file.data.None? || file.filename.None? || file.filename.value == "" then Err(Http(400, "Invalid file data"))
        else if write.Some? then Err(write.value)
        else
          var fileName := FileName(clock.timestamp, file.filename.value);
          Ok(Uploaded(Url(clock, fileName), fileName, file.filename.value, |file.data.value|))
  }

  /** The `catch` block: an error with a (truthy) status code is thrown on
      unchanged; any other becomes a 500 with its message, or
      `Failed to upload file` when the message is empty. */
  function Catch(e: Thrown): (r: Thrown)
    ensures e.Http? && e.status != 0 ==> r == e
    ensures !(e.Http? && e.status != 0) ==>
      r.Http? && r.status == 500 && r.message != "" && (e.message != "" ==> r.message == e.message)
  {
    if e.Http? && e.status != 0 then e
    else Http(500, if e.message != "" then e.message else "Failed to upload file")
  }

  /** The handler: the `try` block with its `catch`. */
  function Handle(form: Result<Option<seq<Part>>, Thrown>, clock: Clock, write: Option<Thrown>): (r: Result<Uploaded, Thrown>)
    requires clock.month < 12
    ensures r.Err? ==> r.error.Http? && r.error.status != 0
    ensures r.Ok? <==> Attempt(form, clock, write).Ok?
    ensures r.Ok? ==> r == Attempt(form, clock, write)
  {
    match Attempt(form, clock, write)
    case Ok(u) => Ok(u)
    case Err(e) => Err(Catch(e))
  }

  // ----- what the handler promises -----

  /** The sanitised name has one character per UTF-16 code unit of the
      original, and a name made of allowed characters is kept as it is. */
  lemma {:induction false} SanitizeLength(name: string)
    ensures |Sanitize(name)| == Utf16Length(name)
    ensures (forall k :: 0 <= k < |name| ==> IsNameChar(name[k])) ==> Sanitize(name) == name
  {
    if name != [] {
      var init := name[..|name| - 1];
      SanitizeLength(init);
      assert name == init + [name[|name| - 1]];
    }
  }

  /** Each kept character stays where it was: position `k` of a name
      without characters beyond U+FFFF maps to position `k`. */
  lemma {:induction false} SanitizeAt(name: string, k: nat)
    requires k < |name|
    requires forall j :: 0 <= j < |name| ==> name[j] as int < 0x10000
    ensures |Sanitize(name)| == |name|
    ensures Sanitize(name)[k] == (if IsNameChar(name[k]) then name[k] else '_')
  {
    var init := name[..|name| - 1];
    if k < |init| {
      SanitizeAt(init, k);
    } else if init != [] {
      SanitizeAt(init, 0);
    }
  }

  /** `parseInt` stops at the first character that is not a digit. */
  lemma {:induction false} DigitPrefixStops(ds: string, rest: string)
    requires forall k :: 0 <= k < |ds| ==> JsText.IsAsciiDigit(ds[k])
    requires rest != [] && !JsText.IsAsciiDigit(rest[0])
    ensures JsText.DigitPrefix(ds + rest, 10) == ds
  {
    if ds != [] {
      assert (ds + rest)[1..] == ds[1..] + rest;
      DigitPrefixStops(ds[1..], rest);
    } else {
      assert (ds + rest)[0] == rest[0];
    }
  }

  /** `parseInt` of the stored name gives the timestamp back: the name
      starts with the decimal timestamp and a `-`. */
  lemma FileNameReadsBack(timestamp: nat, originalName: string)
    ensures JsText.ParseInt(FileName(timestamp, originalName)) == Some(timestamp)
  {
    var ds := JsText.NatToDecimal(timestamp);
    var rest := "-" + Sanitize(originalName);
    var s := FileName(timestamp, originalName);
    assert s == ds + rest;
    assert s[0] == ds[0] && !JsText.IsSpace(s[0]);
    assert JsText.TrimStart(s) == s;
    assert JsText.Unsigned(s) == s;
    assert s[1] == (if |ds| > 1 then ds[1] else '-');
    assert !JsText.HasHexPrefix(s);
    DigitPrefixStops(ds, rest);
    JsText.DecimalValue(timestamp);
  }

  /** Two uploads get the same stored name only when their timestamps are
      equal and their sanitised names are equal. */
  lemma FileNameDistinct(t1: nat, n1: string, t2: nat, n2: string)
    requires FileName(t1, n1) == FileName(t2, n2)
    ensures t1 == t2 && Sanitize(n1) == Sanitize(n2)
  {
    FileNameReadsBack(t1, n1);
    FileNameReadsBack(t2, n2);
    var d := JsText.NatToDecimal(t1);
    assert FileName(t1, n1)[|d| + 1..] == Sanitize(n1);
    assert FileName(t2, n2)[|d| + 1..] == Sanitize(n2);
  }

  /** The month is two digits that read as 1 to 12. */
  lemma MonthTextSpec(month: nat)
    requires month < 12
    ensures |MonthText(month)| == 2
    ensures JsText.IsAsciiDigit(MonthText(month)[0]) && JsText.IsAsciiDigit(MonthText(month)[1])
    ensures JsText.DigitsValue(MonthText(month), 10) == month + 1
  {
    var s := JsText.NatToDecimal(month + 1);
    JsText.DecimalValue(month + 1);
    if month + 1 < 10 {
      assert s == [JsText.DigitChar(month + 1)];
      var m := MonthText(month);
      assert m[..1] == "0" && m[..0] == [];
    } else {
      assert s == [JsText.DigitChar(1), JsText.DigitChar(month + 1 - 10)];
    }
  }

  /** The URL is the upload directory of the year and month followed by the
      stored name. */
  lemma UrlShape(clock: Clock, fileName: string)
    requires clock.month < 12
    ensures var u := Url(clock, fileName);
      var dir := "/uploads/" + JsText.NatToDecimal(clock.year) + "/" + MonthText(clock.month) + "/";
      && |u| == |dir| + |fileName| && u[..|dir|] == dir && u[|dir|..] == fileName
  {
    MonthTextSpec(clock.month);
  }

  /** Empty or missing form data is refused before the clock is read or
      anything is written. */
  lemma NoFileUploaded(clock: Clock, write: Option<Thrown>, parts: Option<seq<Part>>)
    requires clock.month < 12 && (parts.None? || parts == Some([]))
    ensures Handle(Ok(parts), clock, write) == Err(Http(400, "No file uploaded"))
  {
  }

  /** A first part without data or without a file name is refused. */
  lemma InvalidFileData(clock: Clock, write: Option<Thrown>, parts: seq<Part>)
    requires clock.month < 12 && parts != []
    requires parts[0].data.None? || parts[0].filename.GetOr("") == ""
    ensures Handle(Ok(Some(parts)), clock, write) == Err(Http(400, "Invalid file data"))
  {
  }

  /** A failed write is answered with 500 and the error's message, or the
      fallback text when the message is empty. */
  lemma WriteFailure(form: Result<Option<seq<Part>>, Thrown>, clock: Clock, message: string)
    requires clock.month < 12
    requires form.Ok? && form.value.Some? && form.value.value != []
    requires form.value.value[0].data.Some? && form.value.value[0].filename.GetOr("") != ""
    ensures Handle(form, clock, Some(Fault(message)))
            == Err(Http(500, if message != "" then message else "Failed to upload file"))
  {
  }
}
