/**
 * The status dump and import buttons of the sync internals page: dumping
 * writes the current about info (optionally without its sensitive entries)
 * below a dated header, and importing trims pasted text to start at its first
 * '{' before handing it to the JSON parser.
 */
module StatusDump {
  import opened Wrappers

  const EmptyImportPrompt: string := "Paste sync status dump here then click import."
  const InvalidDumpMessage: string := "Invalid sync status dump."

  /** The header lines written between the date and the JSON text of a dump. */
  const StatusHeader: string := "======\nStatus\n======\n"

  /** The position of the first occurrence of c in s, or -1 when there is none. */
  function IndexOf(s: string, c: char): (r: int)
    ensures -1 <= r < |s|
    ensures r == -1 <==> c !in s
    ensures 0 <= r ==> s[r] == c && c !in s[..r]
    decreases |s|
  {
    if s == [] then -1
    else if s[0] == c then 0
    else
      var k := IndexOf(s[1..], c);
      if k < 0 then -1
      else
        assert s[..k + 1] == [s[0]] + s[1..][..k];
        k + 1
  }

  /** What an import does with the text: show a message, or parse the trimmed text. */
  datatype ImportOutcome = ShowMessage(text: string) | ParseDump(data: string)

  /** The text handling of the import button. */
  function ImportStatusText(value: string): (r: ImportOutcome)
    ensures |value| == 0 ==> r == ShowMessage(EmptyImportPrompt)
    ensures |value| > 0 && '{' !in value ==> r == ShowMessage(InvalidDumpMessage)
    ensures '{' in value ==>
      && r.ParseDump?
      && |r.data| > 0 && r.data[0] == '{'
      && |r.data| <= |value|
      && value == value[..|value| - |r.data|] + r.data
      && '{' !in value[..|value| - |r.data|]
  {
    if |value| == 0 then ShowMessage(EmptyImportPrompt)
    else
      var firstBrace := IndexOf(value, '{');
      if firstBrace < 0 then ShowMessage(InvalidDumpMessage)
      else ParseDump(value[firstBrace..])
  }

  /** The parts of the page the import button touches. */
  datatype StatusPanel = StatusPanel(statusText: string, statusDataHidden: bool, aboutInfoListenerAttached: bool)

  /**
   * A click on the import button: the panel is shown; an empty or brace-less
   * text is replaced by a message; otherwise the about-info listener is
   * removed and the trimmed text is returned for parsing.
   */
  function ImportClicked(p: StatusPanel): (r: (StatusPanel, Option<string>))
    ensures !r.0.statusDataHidden
    ensures r.1 == None ==> r.0.aboutInfoListenerAttached == p.aboutInfoListenerAttached
    ensures r.1 == None <==> '{' !in p.statusText
    ensures r.1.Some? ==> r.0.statusText == p.statusText && !r.0.aboutInfoListenerAttached
    ensures r.1.Some? ==> ImportStatusText(p.statusText) == ParseDump(r.1.value)
    ensures r.1 == None ==> ImportStatusText(p.statusText) == ShowMessage(r.0.statusText)
  {
    match ImportStatusText(p.statusText)
    case ShowMessage(text) => (StatusPanel(text, false, p.aboutInfoListenerAttached), None)
    case ParseDump(data) => (StatusPanel(p.statusText, false, false), Some(data))
  }

  /** The text of a status dump, given the date line and the JSON text of the about info. */
  function DumpText(date: string, json: string): (r: string)
    ensures |r| == |date| + 1 + |StatusHeader| + |json| + 1
    ensures r[..|date|] == date && r[|date|] == '\n'
    ensures r[|date| + 1..|date| + 1 + |StatusHeader|] == StatusHeader
    ensures r[|r| - |json| - 1..] == json + "\n"
  {
    var text := (date + "\n" + StatusHeader) + (json + "\n");
    assert (date + "\n" + StatusHeader)[..|date|] == date;
    assert text[..|date| + 1 + |StatusHeader|] == date + "\n" + StatusHeader;
    text
  }

  /** A position holding c and no earlier c is the first occurrence found by the trimming. */
  lemma FirstOccurrenceIsUnique(value: string, c: char, i: int, j: int)
    requires 0 <= i < |value| && 0 <= j < |value|
    requires value[i] == c && c !in value[..i]
    requires value[j] == c && c !in value[..j]
    ensures i == j
  {
  }

  /**
   * Importing the text of a dump recovers exactly the JSON part (with its
   * trailing newline), when the date line holds no '{' and the JSON text is an object.
   */
  lemma ImportOfDumpTextRecoversJson(date: string, json: string)
    requires '{' !in date
    requires |json| > 0 && json[0] == '{'
    ensures ImportStatusText(DumpText(date, json)) == ParseDump(json + "\n")
  {
    var prefix := date + "\n" + StatusHeader;
    var value := DumpText(date, json);
    assert value == prefix + (json + "\n");
    assert '{' !in prefix;
    assert value[|prefix|] == '{';
    assert value[..|prefix|] == prefix;
    assert '{' in value;
    var r := ImportStatusText(value);
    var start := |value| - |r.data|;
    assert value[start] == r.data[0];
    FirstOccurrenceIsUnique(value, '{', start, |prefix|);
    assert r.data == value[start..];
  }

  /** Trimmed text is already trimmed: importing it again hands on the same text. */
  lemma ImportIsIdempotent(value: string)
    requires ImportStatusText(value).ParseDump?
    ensures ImportStatusText(ImportStatusText(value).data) == ImportStatusText(value)
  {
    var d := ImportStatusText(value).data;
    assert d[0] == '{';
    assert d[..0] == [];
    var r := ImportStatusText(d);
    assert '{' in d;
    FirstOccurrenceIsUnique(d, '{', |d| - |r.data|, 0);
  }

  // The include-ids filter of the dump button.

  /** One entry of the about info's details list. */
  datatype DetailEntry = DetailEntry(title: string, data: string, isSensitive: bool)

  /**
   * The about info: its details list, which is missing from the empty initial
   * info and from imported text that has none, and its other fields, kept opaque.
   */
  datatype AboutInfo = AboutInfo(details: Option<seq<DetailEntry>>, otherFields: string)

  /** The details without the entries marked sensitive. */
  function WithoutSensitive(details: seq<DetailEntry>): (r: seq<DetailEntry>)
    ensures forall x :: x in r <==> x in details && !x.isSensitive
    ensures |r| <= |details|
    decreases |details|
  {
    if details == [] then []
    else (if details[0].isSensitive then [] else [details[0]]) + WithoutSensitive(details[1..])
  }

  /** r keeps some of the elements of s, in their original order. */
  ghost predicate IsSubsequence(r: seq<DetailEntry>, s: seq<DetailEntry>)
    decreases |s|
  {
    if r == [] then true
    else if s == [] then false
    else (r[0] == s[0] && IsSubsequence(r[1..], s[1..])) || IsSubsequence(r, s[1..])
  }

  /** The filter keeps the order of the entries it keeps. */
  lemma {:induction false} WithoutSensitiveIsSubsequence(details: seq<DetailEntry>)
    ensures IsSubsequence(WithoutSensitive(details), details)
    decreases |details|
  {
    if details != [] {
      WithoutSensitiveIsSubsequence(details[1..]);
      var rest := WithoutSensitive(details[1..]);
      if !details[0].isSensitive {
        assert WithoutSensitive(details) == [details[0]] + rest;
        assert ([details[0]] + rest)[1..] == rest;
      } else {
        assert WithoutSensitive(details) == rest;
      }
    }
  }

  /** Every non-sensitive entry is kept as often as it occurs, and no sensitive one. */
  lemma {:induction false} WithoutSensitiveCounts(details: seq<DetailEntry>, x: DetailEntry)
    ensures multiset(WithoutSensitive(details))[x] == if x.isSensitive then 0 else multiset(details)[x]
    decreases |details|
  {
    if details != [] {
      WithoutSensitiveCounts(details[1..], x);
      assert details == [details[0]] + details[1..];
    }
  }

  /** Filtering a concatenation filters each part. */
  lemma {:induction false} WithoutSensitiveAppend(a: seq<DetailEntry>, b: seq<DetailEntry>)
    ensures WithoutSensitive(a + b) == WithoutSensitive(a) + WithoutSensitive(b)
    decreases |a|
  {
    if a != [] {
      assert (a + b)[0] == a[0];
      assert (a + b)[1..] == a[1..] + b;
      WithoutSensitiveAppend(a[1..], b);
      var head := if a[0].isSensitive then [] else [a[0]];
      assert WithoutSensitive(a + b) == head + WithoutSensitive(a[1..] + b);
      assert WithoutSensitive(a) == head + WithoutSensitive(a[1..]);
    } else {
      assert a + b == b;
    }
  }

  /** Filtering twice is filtering once. */
  lemma {:induction false} WithoutSensitiveIsIdempotent(details: seq<DetailEntry>)
    ensures WithoutSensitive(WithoutSensitive(details)) == WithoutSensitive(details)
    decreases |details|
  {
    if details != [] {
      WithoutSensitiveIsIdempotent(details[1..]);
      var head := if details[0].isSensitive then [] else [details[0]];
      WithoutSensitiveAppend(head, WithoutSensitive(details[1..]));
    }
  }

  /**
   * What a click on the dump button produces: the info it writes out, or None
   * when the handler throws before writing anything, and the info left stored.
   */
  datatype DumpOutcome = DumpOutcome(dumped: Option<AboutInfo>, stored: AboutInfo)

  /**
   * The dump click as written: the local variable names the stored about info
   * itself, so assigning the filtered details to it filters the stored info too.
   * Filtering a missing details list throws, and then nothing is dumped or changed.
   */
  function DumpClickedAsWritten(stored: AboutInfo, includeIds: bool): (r: DumpOutcome)
    ensures r.dumped.Some? <==> includeIds || stored.details.Some?
    ensures r.dumped.Some? ==> r.dumped.value == r.stored
    ensures r.dumped == None ==> r.stored == stored
    ensures r.stored.otherFields == stored.otherFields
    ensures includeIds ==> r.stored == stored
    ensures !includeIds && stored.details.Some? ==>
      r.stored.details == Some(WithoutSensitive(stored.details.value))
  {
    var aboutInfo := stored;
    if includeIds then DumpOutcome(Some(aboutInfo), aboutInfo)
    else
      match aboutInfo.details
      case None => DumpOutcome(None, stored)
      case Some(details) =>
        var filtered := aboutInfo.(details := Some(WithoutSensitive(details)));
        DumpOutcome(Some(filtered), filtered)
  }

  /**
   * A dump without ids followed by a dump with ids, as written: the second dump
   * no longer shows the sensitive entry, although include-ids is checked.
   */
  lemma DumpAsWrittenLosesEntries()
    ensures
      var secret := DetailEntry("Sync Id", "0123", true);
      var stored := AboutInfo(Some([secret]), "");
      var afterFirst := DumpClickedAsWritten(stored, false).stored;
      DumpClickedAsWritten(afterFirst, true).dumped == Some(AboutInfo(Some([]), "")) &&
      DumpClickedAsWritten(stored, true).dumped == Some(stored)
  {
    var secret := DetailEntry("Sync Id", "0123", true);
    assert WithoutSensitive([secret]) == [];
  }

  /**
   * The dump click with the filter applied to a copy: the stored info is never
   * changed.  A missing details list still makes the unchecked dump throw.
   */
  function DumpClicked(stored: AboutInfo, includeIds: bool): (r: DumpOutcome)
    ensures r.stored == stored
    ensures r.dumped.Some? <==> includeIds || stored.details.Some?
    ensures includeIds ==> r.dumped == Some(stored)
    ensures !includeIds && stored.details.Some? ==>
      r.dumped == Some(AboutInfo(Some(WithoutSensitive(stored.details.value)), stored.otherFields))
  {
    if includeIds then DumpOutcome(Some(stored), stored)
    else
      match stored.details
      case None => DumpOutcome(None, stored)
      case Some(details) => DumpOutcome(Some(stored.(details := Some(WithoutSensitive(details)))), stored)
  }

  /** The stored info after a sequence of dump clicks with the given include-ids settings. */
  function DumpAll(stored: AboutInfo, clicks: seq<bool>): AboutInfo
    decreases |clicks|
  {
    if clicks == [] then stored else DumpAll(DumpClicked(stored, clicks[0]).stored, clicks[1..])
  }

  /** With the copy, any sequence of dump clicks leaves the stored info as it was. */
  lemma {:induction false} DumpAllLeavesStoredInfo(stored: AboutInfo, clicks: seq<bool>)
    ensures DumpAll(stored, clicks) == stored
    decreases |clicks|
  {
    if clicks != [] {
      DumpAllLeavesStoredInfo(DumpClicked(stored, clicks[0]).stored, clicks[1..]);
    }
  }

  /**
   * Hence, with the copy, a dump after any earlier dumps is the same as a dump
   * of the untouched stored info; in particular a dump with ids shows every entry.
   */
  lemma DumpsDoNotInterfere(stored: AboutInfo, earlier: seq<bool>, includeIds: bool)
    ensures DumpClicked(DumpAll(stored, earlier), includeIds) == DumpClicked(stored, includeIds)
    ensures DumpClicked(DumpAll(stored, earlier), true).dumped == Some(stored)
  {
    DumpAllLeavesStoredInfo(stored, earlier);
  }
}
