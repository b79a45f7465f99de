/** The `contextmenu` listener attached to every thumbnail: from the image's
    `src` and the post link around it, the URL to download and the name to
    save it under. The browser's date parser and `Date.prototype.toString`
    are parameters. */
module Handler {
  import opened Wrappers
  import opened Text
  import opened Decimal
  import opened DateFormat
  import opened AssetName
  import opened PostInfo

  /** The attributes of the `a[href^="/profile/"][dir="auto"]` link inside
      the post; `getAttribute("aria-label")` may find nothing. */
  datatype PostLink = PostLink(href: string, ariaLabel: Option<string>)

  /** The request the listener hands to the download step. */
  datatype Download = Download(url: string, filename: string)

  /** What `Date.prototype.toString` gives for an invalid date. */
  const InvalidDate: string := "Invalid Date"

  /** `parseDate(ariaLabel)`: the first ` at ` of the label becomes a space,
      the browser parses the result and the date is printed back with
      `show`, the browser's `toString`. */
  function ParseDate(ariaLabel: string, parse: string -> JsDate, show: DateTime -> string): string {
    match parse(ReplaceFirst(ariaLabel, " at ", " "))
    case None => InvalidDate
    case Some(d) => show(d)
  }

  /** `dateStr`: an em dash and the day of the printed date, or nothing when
      the label did not parse. */
  function DateStr(ariaLabel: string, parse: string -> JsDate, show: DateTime -> string): string {
    var dateParsed := ParseDate(ariaLabel, parse, show);
    var date := if dateParsed == InvalidDate then "" else dateParsed;
    if date != "" then [Dash] + DayDateString(DateString(date), parse) else ""
  }

  /** The listener. `None` for `postLink` stands for either lookup of the
      post element or of its link finding nothing; a missing `aria-label`
      makes `ariaLabel.replace` throw, so nothing is downloaded then
      either. */
  method OnContextMenu(src: string, postLink: Option<PostLink>, parse: string -> JsDate, show: DateTime -> string)
    returns (download: Option<Download>)
    ensures postLink.None? || postLink.value.ariaLabel.None? || AssetFilename(src).None? ==> download.None?
    ensures postLink.Some? && postLink.value.ariaLabel.Some? && AssetFilename(src).Some? ==>
              download == Some(Download(FullSizeUrl(src),
                FilenameResult(ParseInfo(postLink.value.href), DateStr(postLink.value.ariaLabel.value, parse, show),
                               AssetFilename(src).value)))
    ensures download.Some? ==> StartsWith(download.value.filename, "[bsky] ")
    ensures download.Some? ==> !EndsWith(download.value.filename, "jpeg")
  {
    if postLink.None? {
      return None;
    }
    var link := postLink.value;
    var imageLink := FullSizeUrl(src);
    var segment := LastSegment(imageLink);
    AssetSteps(src, segment);
    if segment.None? {
      return None;
    }
    var filename := segment.value;
    filename := AtToDot(filename);
    if EndsWith(filename, "jpeg") {
      filename := filename[..|filename| - 4] + "jpg";
    }
    assert filename == FixJpeg(AtToDot(segment.value));
    if link.ariaLabel.None? {
      return None;
    }
    var dateParsed := ParseDate(link.ariaLabel.value, parse, show);
    var date := if dateParsed == InvalidDate then "" else dateParsed;
    var info := ParseInfo(link.href);
    var dateStr := if date != "" then [Dash] + DayDateString(DateString(date), parse) else "";
    assert dateStr == DateStr(link.ariaLabel.value, parse, show);
    var name := FilenameResult(info, dateStr, filename);
    NameShape(info, dateStr, filename);
    download := Some(Download(imageLink, name));
  }

  lemma AssetSteps(src: string, segment: Option<string>)
    requires segment == LastSegment(FullSizeUrl(src))
    ensures segment.None? <==> AssetFilename(src).None?
    ensures segment.Some? ==> AssetFilename(src) == Some(FixJpeg(AtToDot(segment.value)))
  {
  }

  /** A saved name starts with `[bsky] ` and, when the asset name does not
      end in `jpeg`, neither does the saved name: the em dash before the
      asset name keeps the fields in front of it out of its last four
      characters. */
  lemma NameShape(info: Option<Info>, dateStr: string, filename: string)
    requires !EndsWith(filename, "jpeg")
    ensures StartsWith(FilenameResult(info, dateStr, filename), "[bsky] ")
    ensures !EndsWith(FilenameResult(info, dateStr, filename), "jpeg")
  {
    var head := "[bsky] " + Render(Profile(info));
    var front := head + dateStr + [Dash] + Render(Post(info));
    assert StartsWith(head, "[bsky] ");
    PrefixGrows("[bsky] ", head, dateStr + [Dash] + Render(Post(info)) + [Dash] + filename);
    AppendAssoc5(head, dateStr, [Dash], Render(Post(info)), [Dash], filename);
    DashBeforeName(front, filename);
  }

  lemma PrefixGrows(a: string, b: string, c: string)
    requires StartsWith(b, a)
    ensures StartsWith(b + c, a)
  {
  }

  lemma AppendAssoc5(a: string, b: string, c: string, d: string, e: string, f: string)
    ensures a + b + c + d + e + f == a + (b + c + d + e + f)
  {
  }

  /** The em dash in front of the asset name keeps the text before it out of
      the name's last four characters. */
  lemma DashBeforeName(front: string, filename: string)
    requires !EndsWith(filename, "jpeg")
    ensures !EndsWith(front + [Dash] + filename, "jpeg")
  {
    var r := front + [Dash] + filename;
    if |r| >= 4 {
      var tail := r[|r| - 4..];
      if |filename| >= 4 {
        assert tail == filename[|filename| - 4..];
      } else {
        assert tail[3 - |filename|] == Dash;
      }
    }
  }

  /** A label the browser cannot parse leaves the day out of the name. */
  lemma DateStrInvalid(ariaLabel: string, parse: string -> JsDate, show: DateTime -> string)
    requires parse(ReplaceFirst(ariaLabel, " at ", " ")).None?
    ensures DateStr(ariaLabel, parse, show) == ""
  {
  }

  /** A label the browser parses gives an em dash and the ten-character day
      of the printed date read back by the browser (the `toString` text is
      parsed a second time): `dddd.dd.dd`, no em dash in it. */
  lemma DateStrDay(ariaLabel: string, parse: string -> JsDate, show: DateTime -> string, d: DateTime, e: DateTime)
    requires parse(ReplaceFirst(ariaLabel, " at ", " ")) == Some(d)
    requires show(d) != "" && show(d) != InvalidDate
    requires parse(FirefoxDateFix(DateString(show(d))).text) == Some(e) && InRange(e)
    ensures DateStr(ariaLabel, parse, show) == [Dash] + FormatDate(Some(e), "YYYY.MM.DD")
    ensures |DateStr(ariaLabel, parse, show)| == 11 && DashFree(FormatDate(Some(e), "YYYY.MM.DD"))
  {
    DayDateShape(e);
    DottedDashFree(FormatDate(Some(e), "YYYY.MM.DD"));
  }

  /** A `dddd.dd.dd` text holds no em dash. */
  lemma DottedDashFree(r: string)
    requires |r| == 10 && r[4] == '.' && r[7] == '.'
    requires AllDigits(r[..4]) && AllDigits(r[5..7]) && AllDigits(r[8..])
    ensures DashFree(r)
  {
    forall k | 0 <= k < |r| ensures r[k] != Dash {
      if k < 4 {
        assert r[k] == r[..4][k] && IsDigit(r[..4][k]);
      } else if 5 <= k < 7 {
        assert r[k] == r[5..7][k - 5] && IsDigit(r[5..7][k - 5]);
      } else if 8 <= k {
        assert r[k] == r[8..][k - 8] && IsDigit(r[8..][k - 8]);
      }
    }
  }

  /** A name saved for a parsed label splits at its em dashes into the
      handle, the day, the post id and the asset name. */
  lemma SavedNameFields(info: Info, ariaLabel: string, parse: string -> JsDate, show: DateTime -> string,
                        d: DateTime, e: DateTime, filename: string)
    requires DashFree(info.profile) && DashFree(info.post) && DashFree(filename)
    requires parse(ReplaceFirst(ariaLabel, " at ", " ")) == Some(d)
    requires show(d) != "" && show(d) != InvalidDate
    requires parse(FirefoxDateFix(DateString(show(d))).text) == Some(e) && InRange(e)
    ensures Split(FilenameResult(Some(info), DateStr(ariaLabel, parse, show), filename), Dash)
            == ["[bsky] " + info.profile, FormatDate(Some(e), "YYYY.MM.DD"), info.post, filename]
  {
    DateStrDay(ariaLabel, parse, show, d, e);
    DayFields(info, DateStr(ariaLabel, parse, show), FormatDate(Some(e), "YYYY.MM.DD"), filename);
  }

  lemma DayFields(info: Info, dateStr: string, day: string, filename: string)
    requires DashFree(info.profile) && DashFree(info.post) && DashFree(filename) && DashFree(day)
    requires dateStr == [Dash] + day
    ensures Split(FilenameResult(Some(info), dateStr, filename), Dash) == ["[bsky] " + info.profile, day, info.post, filename]
  {
    FilenameFields(Some(info), Some(day), filename);
  }

  /** 18 November 2024 (month 10 counted from 0) prints as `2024.11.18`. */
  lemma ExampleDay()
    ensures FormatDate(Some(DateTime(2024, 10, 18, 10, 44, 0)), "YYYY.MM.DD") == "2024.11.18"
  {
    var d := DateTime(2024, 10, 18, 10, 44, 0);
    ExampleFields(d);
    DayPattern(t => Field(Some(d), t));
    ExampleDots("2024", "11", "18");
  }

  lemma ExampleFields(d: DateTime)
    requires d == DateTime(2024, 10, 18, 10, 44, 0)
    ensures Field(Some(d), YYYY) == "2024" && Field(Some(d), MM) == "11" && Field(Some(d), DD) == "18"
  {
    ExampleDigits();
    Pad0Long(2024, 4);
    Pad0Long(11, 2);
    Pad0Long(18, 2);
  }

  lemma ExampleDigits()
    ensures NatToString(2024) == "2024" && NatToString(11) == "11" && NatToString(18) == "18"
  {
    assert NatToString(2) == "2";
    assert NatToString(20) == "20";
    assert NatToString(202) == "202";
    assert NatToString(1) == "1";
  }

  lemma ExampleDots(y: string, m: string, d: string)
    requires y == "2024" && m == "11" && d == "18"
    ensures y + "." + m + "." + d == "2024.11.18"
  {
  }

  /** The asset `xyz@jpeg` is saved as `xyz.jpg`. */
  lemma ExampleAsset(name: string)
    requires name == "xyz@jpeg"
    ensures FixJpeg(AtToDot(name)) == "xyz.jpg"
  {
    ExampleAt(name);
    ExampleJpeg(AtToDot(name));
  }

  lemma ExampleAt(name: string)
    requires name == "xyz@jpeg"
    ensures AtToDot(name) == "xyz.jpeg"
  {
    SplitAround(name, 3);
    ExampleAtParts(name, name[..3], name[4..]);
  }

  lemma ExampleAtParts(name: string, u: string, v: string)
    requires name == u + "@" + v && u == "xyz" && v == "jpeg"
    ensures AtToDot(name) == "xyz.jpeg"
  {
    AtToDotAfter(u, v);
  }

  lemma ExampleJpeg(name: string)
    requires name == "xyz.jpeg"
    ensures FixJpeg(name) == "xyz.jpg"
  {
    assert name[|name| - 4..] == "jpeg" && name[..|name| - 4] == "xyz.";
  }

  /** The name of an `xyz@jpeg` asset of post `abc123` by
      `alice.bsky.social` dated 18 November 2024. */
  lemma ExampleName(asset: string)
    requires asset == "xyz@jpeg"
    ensures FilenameResult(Some(Info("alice.bsky.social", "abc123")),
                           [Dash] + FormatDate(Some(DateTime(2024, 10, 18, 10, 44, 0)), "YYYY.MM.DD"),
                           FixJpeg(AtToDot(asset)))
            == "[bsky] alice.bsky.social" + [Dash] + "2024.11.18" + [Dash] + "abc123" + [Dash] + "xyz.jpg"
  {
    ExampleDay();
    ExampleAsset(asset);
    ExampleTemplate(FormatDate(Some(DateTime(2024, 10, 18, 10, 44, 0)), "YYYY.MM.DD"), FixJpeg(AtToDot(asset)));
  }

  lemma ExampleTemplate(day: string, asset: string)
    requires day == "2024.11.18" && asset == "xyz.jpg"
    ensures FilenameResult(Some(Info("alice.bsky.social", "abc123")), [Dash] + day, asset)
            == "[bsky] alice.bsky.social" + [Dash] + "2024.11.18" + [Dash] + "abc123" + [Dash] + "xyz.jpg"
  {
  }

  /** With no date and a link without `/profile/<p>/post/<q>`, both groups
      print as `undefined`. */
  lemma ExampleNameWithoutInfo()
    ensures FilenameResult(None, "", "xyz.jpg") == "[bsky] undefined" + [Dash] + "undefined" + [Dash] + "xyz.jpg"
  {
  }
}
