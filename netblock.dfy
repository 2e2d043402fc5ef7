/**
 * The CIDR scrapers of metabigor's `modules/netblock.go`.
 *
 * Each adapter builds a URL from the query, fetches a page, parses it and
 * scans it for CIDR strings. The fetchers (`core.RequestWithChrome`,
 * `core.SendGET`), the HTML parser (goquery) and the JSON decoder are
 * parameters: `render(url, waitFor)` and `get(url)` give the body, `parse`
 * gives the parsed page or `None` when parsing fails, `decode` gives the
 * decoded array or the error.
 */
module Netblock {
  import opened Wrappers
  import opened GoStrings
  import opened Collections

  // ---------------------------------------------------------------------
  // ASN normaliser and URL templates
  // ---------------------------------------------------------------------

  /** `getAsnNum`: drops a leading "as", in any letter case. */
  function AsnNum(raw: string): (r: string)
    ensures |raw| >= 2 && raw[0] in "aA" && raw[1] in "sS" ==> r == raw[2..]
    ensures !(|raw| >= 2 && raw[0] in "aA" && raw[1] in "sS") ==> r == raw
  {
    AsPrefixIff(raw);
    if HasPrefix(ToLower(raw), "as") then raw[2..] else raw
  }

  /** The lower-cased text starts with "as" exactly when the text starts with "a" or "A", then "s" or "S". */
  lemma AsPrefixIff(raw: string)
    ensures HasPrefix(ToLower(raw), "as") <==> |raw| >= 2 && raw[0] in "aA" && raw[1] in "sS"
  {
    if |raw| >= 2 {
      var l := ToLower(raw);
      assert l[0] == LowerAscii(raw[0]) && l[1] == LowerAscii(raw[1]);
      assert LowerAscii(raw[0]) == 'a' <==> raw[0] in "aA";
      assert LowerAscii(raw[1]) == 's' <==> raw[1] in "sS";
      assert HasPrefix(l, "as") <==> l[0] == 'a' && l[1] == 's';
    }
  }

  /** Any casing of "AS" in front of a bare number is dropped, and only it. */
  lemma AsnNumDropsAsPrefix(p: string, d: string)
    requires |p| == 2 && ToLower(p) == "as"
    ensures AsnNum(p + d) == d
  {
    AsPrefixIff(p);
    AsPrefixIff(p + d);
    assert (p + d)[2..] == d;
  }

  /** The normaliser on the three identifiers a user typically gives. */
  lemma AsnNumExamples()
    ensures AsnNum("AS12345") == "12345"
    ensures AsnNum("as999") == "999"
    ensures AsnNum("12345") == "12345"
    ensures AsnNum("ASAS1") == "AS1" && AsnNum(AsnNum("ASAS1")) == "1"
  {
    assert "AS12345"[2..] == "12345";
    assert "as999"[2..] == "999";
    assert "ASAS1"[2..] == "AS1";
    assert "AS1"[2..] == "1";
  }

  /** The ipinfo.io page of the normalised AS number. */
  function IPInfoUrl(asn: string): (r: string)
    ensures HasPrefix(r, "https://ipinfo.io/AS")
    ensures r[|"https://ipinfo.io/AS"|..] == AsnNum(asn)
  {
    "https://ipinfo.io/AS" + AsnNum(asn)
  }

  /** The ipv4info.com search for the normalised AS number. */
  function IPv4InfoSearchUrl(asn: string): (r: string)
    ensures HasPrefix(r, "http://ipv4info.com/?act=check&ip=AS")
    ensures r[|"http://ipv4info.com/?act=check&ip=AS"|..] == AsnNum(asn)
  {
    "http://ipv4info.com/?act=check&ip=AS" + AsnNum(asn)
  }

  /** An organisation page: the site root followed by the link, as given. */
  function IPv4InfoPageUrl(link: string): (r: string)
    ensures HasPrefix(r, "http://ipv4info.com")
    ensures r[|"http://ipv4info.com"|..] == link
  {
    "http://ipv4info.com" + link
  }

  /** The prefix tab of the normalised AS number on bgp.he.net. */
  function BgpAsnUrl(asn: string): (r: string)
    ensures HasPrefix(r, "https://bgp.he.net/AS")
    ensures |r| == |"https://bgp.he.net/AS"| + |AsnNum(asn)| + |"#_prefixes"|
    ensures r[|"https://bgp.he.net/AS"|..|r| - |"#_prefixes"|] == AsnNum(asn)
    ensures r[|r| - |"#_prefixes"|..] == "#_prefixes"
  {
    "https://bgp.he.net/AS" + AsnNum(asn) + "#_prefixes"
  }

  /** The spyse.com AS page, which names the normalised number twice. */
  function SpyseUrl(asn: string): (r: string)
    ensures HasPrefix(r, "https://spyse.com/target/as/")
    ensures |r| == |"https://spyse.com/target/as/"| + |"#c-domain__anchor--3--"| + 2 * |AsnNum(asn)|
    ensures r[|"https://spyse.com/target/as/"|..|"https://spyse.com/target/as/"| + |AsnNum(asn)|] == AsnNum(asn)
    ensures r[|"https://spyse.com/target/as/"| + |AsnNum(asn)|..|r| - |AsnNum(asn)|] == "#c-domain__anchor--3--"
    ensures r[|r| - |AsnNum(asn)|..] == AsnNum(asn)
  {
    var n := AsnNum(asn);
    "https://spyse.com/target/as/" + n + "#c-domain__anchor--3--" + n
  }

  /** The bgp.he.net search for an organisation, which is placed in the query unescaped. */
  function BgpOrgUrl(org: string): (r: string)
    ensures HasPrefix(r, "https://bgp.he.net/search?search%5Bsearch%5D=")
    ensures |r| == |"https://bgp.he.net/search?search%5Bsearch%5D="| + |org| + |"&commit=Search"|
    ensures r[|"https://bgp.he.net/search?search%5Bsearch%5D="|..|r| - |"&commit=Search"|] == org
    ensures r[|r| - |"&commit=Search"|..] == "&commit=Search"
  {
    "https://bgp.he.net/search?search%5Bsearch%5D=" + org + "&commit=Search"
  }

  /** The asnlookup.com API query for an organisation, which is placed in the query unescaped. */
  function AsnLookupUrl(org: string): (r: string)
    ensures HasPrefix(r, "http://asnlookup.com/api/lookup?org=")
    ensures r[|"http://asnlookup.com/api/lookup?org="|..] == org
  {
    "http://asnlookup.com/api/lookup?org=" + org
  }

  /**
   * "AS13335", "as13335" and "13335" make every ASN adapter fetch the same
   * page, provided the number itself does not start with "as".
   */
  lemma AsnUrlsIgnoreAsPrefix(p: string, d: string)
    requires |p| == 2 && ToLower(p) == "as"
    requires !(|d| >= 2 && d[0] in "aA" && d[1] in "sS")
    ensures IPInfoUrl(p + d) == IPInfoUrl(d)
    ensures IPv4InfoSearchUrl(p + d) == IPv4InfoSearchUrl(d)
    ensures BgpAsnUrl(p + d) == BgpAsnUrl(d)
    ensures SpyseUrl(p + d) == SpyseUrl(d)
  {
    AsnNumDropsAsPrefix(p, d);
  }

  /** Distinct links give distinct secondary-page URLs. */
  lemma PageUrlInjective(a: string, b: string)
    requires IPv4InfoPageUrl(a) == IPv4InfoPageUrl(b)
    ensures a == b
  {
    var n := |"http://ipv4info.com"|;
    assert a == IPv4InfoPageUrl(a)[n..];
    assert b == IPv4InfoPageUrl(b)[n..];
  }

  // ---------------------------------------------------------------------
  // Parsed pages
  // ---------------------------------------------------------------------

  /** A `td` element: its `style` and `class` attributes ("" when absent) and its text. */
  datatype Cell = Cell(style: string, className: string, text: string)

  /**
   * What the scrapers read from a parsed page, in document order: the text
   * of every `tr`, the `href` of every `a` (None when it has none), and
   * every `td`.
   */
  datatype Document = Document(rows: seq<string>, anchors: seq<Option<string>>, cells: seq<Cell>)

  /** The page an HTML parser makes of an empty body: no rows, links or cells. */
  const EmptyDocument := Document([], [], [])

  // ---------------------------------------------------------------------
  // Row fields
  // ---------------------------------------------------------------------

  /** The first two-space-separated field of a row's trimmed text (`data[0]`). */
  function FirstField(text: string): string
  {
    Split(TrimSpace(text), "  ")[0]
  }

  /** A single field: trimmed, and without the two-space separator. */
  predicate IsField(x: string)
  {
    TrimSpace(x) == x && !Contains(x, "  ")
  }

  /** The first field runs from the start of the trimmed text to its first separator. */
  lemma FirstFieldIsPrefixUpToSeparator(text: string)
    ensures var t, f := TrimSpace(text), FirstField(text);
      && HasPrefix(t, f)
      && !Contains(f, "  ")
      && (forall j :: 0 <= j < |f| ==> !OccursAt(t, "  ", j))
      && (|f| == |t| || HasPrefix(t[|f|..], "  "))
  {
    var t := TrimSpace(text);
    IndexSpec(t, "  ");
    SplitFirstPiece(t, "  ");
    SplitPiecesHaveNoSeparator(t, "  ");
    if Index(t, "  ") >= 0 {
      assert t[Index(t, "  ")..][..2] == t[Index(t, "  ")..Index(t, "  ") + 2];
    }
  }

  /** Trimming a piece that holds no separator gives a field. */
  lemma TrimmedPieceIsField(piece: string)
    requires !Contains(piece, "  ")
    ensures IsField(TrimSpace(piece))
  {
    var r := TrimSpace(piece);
    TrimSpaceIdempotent(piece);
    TrimSpaceSpec(piece);
    if Contains(r, "  ") {
      ContainsTransitive(piece, r, TrimStart(piece), "  ");
    }
  }

  /** The CIDR candidate of a row: its trimmed first field, which is a field. */
  lemma TrimmedFirstFieldIsField(text: string)
    ensures IsField(TrimSpace(FirstField(text)))
  {
    FirstFieldIsPrefixUpToSeparator(text);
    TrimmedPieceIsField(FirstField(text));
  }

  /**
   * A row laid out as a field, the separator and a description (ending in a
   * visible character) is its own trimmed text, and its first field is
   * that field: extraction undoes the layout.
   */
  lemma FirstFieldOfRow(cidr: string, desc: string)
    requires cidr != [] && IsField(cidr)
    requires desc != [] && !IsSpace(desc[|desc| - 1])
    ensures TrimSpace(cidr + "  " + desc) == cidr + "  " + desc
    ensures FirstField(cidr + "  " + desc) == cidr
  {
    var row := cidr + "  " + desc;
    TrimSpaceSpec(cidr);
    assert !IsSpace(row[0]) && !IsSpace(row[|row| - 1]);
    TrimSpaceOfTrimmed(row);
    RowSeparatorAfterField(cidr, desc);
    SplitFirstPiece(row, "  ");
    assert row[..|cidr|] == cidr;
  }

  /** In a laid-out row the first double space is the one right after the field. */
  lemma RowSeparatorAfterField(cidr: string, desc: string)
    requires cidr != [] && IsField(cidr)
    ensures Index(cidr + "  " + desc, "  ") == |cidr|
  {
    var row := cidr + "  " + desc;
    TrimSpaceSpec(cidr);
    assert OccursAt(row, "  ", |cidr|);
    ContainsIff(cidr, "  ");
    forall j | 0 <= j < |cidr| ensures !OccursAt(row, "  ", j) {
      if j + 2 <= |cidr| {
        assert row[j..j + 2] == cidr[j..j + 2];
        assert !OccursAt(cidr, "  ", j);
      } else {
        assert row[j] == cidr[|cidr| - 1];
        assert row[j..j + 2][0] == row[j] != "  "[0];
      }
    }
    IndexSpec(row, "  ");
  }

  // ---------------------------------------------------------------------
  // IPInfo (ipinfo.io)
  // ---------------------------------------------------------------------

  /** A row of the ipinfo.io table: skipped when its text mentions "Netblock". */
  function IPInfoRow(text: string): (r: Option<string>)
    ensures r.None? <==> Contains(text, "Netblock")
    ensures r.Some? ==> IsField(r.value)
  {
    TrimmedFirstFieldIsField(text);
    if Contains(text, "Netblock") then None else Some(TrimSpace(FirstField(text)))
  }

  function IPInfoResult(asn: string, render: (string, string) -> string, parse: string -> Option<Document>): seq<string>
  {
    match parse(render(IPInfoUrl(asn), "ipTabContent"))
    case None => []
    case Some(doc) => Collect(doc.rows, IPInfoRow)
  }

  /** `IPInfo`: the rendered ipinfo.io page's rows, scanned in order. */
  method IPInfo(asn: string, render: (string, string) -> string, parse: string -> Option<Document>)
    returns (result: seq<string>)
    ensures result == IPInfoResult(asn, render, parse)
  {
    var url := IPInfoUrl(asn);
    result := [];
    var content := render(url, "ipTabContent");
    var page := parse(content);
    if page.None? {
      return;
    }
    var rows := page.value.rows;
    var i := 0;
    while i < |rows|
      invariant 0 <= i <= |rows|
      invariant result == Collect(rows[..i], IPInfoRow)
    {
      var text := rows[i];
      if !Contains(text, "Netblock") {
        var data := Split(TrimSpace(text), "  ");
        var cidr := TrimSpace(data[0]);
        result := result + [cidr];
      }
      CollectSnoc(rows, i, IPInfoRow);
      i := i + 1;
    }
    assert rows[..i] == rows;
  }

  /** A value is emitted exactly when some row without "Netblock" has it as its trimmed first field. */
  lemma IPInfoEmitsRowsWithoutNetblock(rows: seq<string>, x: string)
    ensures x in Collect(rows, IPInfoRow) <==>
      exists i :: 0 <= i < |rows| && !Contains(rows[i], "Netblock") && x == TrimSpace(FirstField(rows[i]))
  {
    CollectMember(rows, IPInfoRow, x);
  }

  /** Every value the ipinfo.io scan emits is a single trimmed field. */
  lemma IPInfoCidrsAreFields(rows: seq<string>)
    ensures forall x :: x in Collect(rows, IPInfoRow) ==> IsField(x)
  {
    forall x | x in Collect(rows, IPInfoRow) ensures IsField(x) {
      CollectMember(rows, IPInfoRow, x);
      var i :| 0 <= i < |rows| && IPInfoRow(rows[i]) == Some(x);
      TrimmedFirstFieldIsField(rows[i]);
    }
  }

  /** A data row laid out as field, separator, description yields its field unless it mentions "Netblock". */
  lemma IPInfoRowOfLayout(cidr: string, desc: string)
    requires cidr != [] && IsField(cidr)
    requires desc != [] && !IsSpace(desc[|desc| - 1])
    ensures IPInfoRow(cidr + "  " + desc) ==
      if Contains(cidr + "  " + desc, "Netblock") then None else Some(cidr)
  {
    FirstFieldOfRow(cidr, desc);
  }

  // ---------------------------------------------------------------------
  // ASNBgpDotNet (bgp.he.net, by ASN)
  // ---------------------------------------------------------------------

  /** A row of the bgp.he.net prefix table: skipped when its first field mentions "Prefix". */
  function BgpPrefixRow(text: string): (r: Option<string>)
    ensures r.None? <==> Contains(TrimSpace(FirstField(text)), "Prefix")
    ensures r.Some? ==> IsField(r.value) && !Contains(r.value, "Prefix")
  {
    TrimmedFirstFieldIsField(text);
    var cidr := TrimSpace(FirstField(text));
    if Contains(cidr, "Prefix") then None else Some(cidr)
  }

  function BgpAsnResult(asn: string, render: (string, string) -> string, parse: string -> Option<Document>): seq<string>
  {
    match parse(render(BgpAsnUrl(asn), "prefixes"))
    case None => []
    case Some(doc) => Collect(doc.rows, BgpPrefixRow)
  }

  /** `ASNBgpDotNet`: the rendered bgp.he.net prefix page's rows, scanned in order. */
  method ASNBgpDotNet(asn: string, render: (string, string) -> string, parse: string -> Option<Document>)
    returns (result: seq<string>)
    ensures result == BgpAsnResult(asn, render, parse)
  {
    var url := BgpAsnUrl(asn);
    result := [];
    var content := render(url, "prefixes");
    var page := parse(content);
    if page.None? {
      return;
    }
    var rows := page.value.rows;
    var i := 0;
    while i < |rows|
      invariant 0 <= i <= |rows|
      invariant result == Collect(rows[..i], BgpPrefixRow)
    {
      var data := Split(TrimSpace(rows[i]), "  ");
      var cidr := TrimSpace(data[0]);
      if !Contains(cidr, "Prefix") {
        result := result + [cidr];
      }
      CollectSnoc(rows, i, BgpPrefixRow);
      i := i + 1;
    }
    assert rows[..i] == rows;
  }

  /** A value is emitted exactly when some row's trimmed first field is that value and does not mention "Prefix". */
  lemma BgpEmitsRowsByFirstField(rows: seq<string>, x: string)
    ensures x in Collect(rows, BgpPrefixRow) <==>
      exists i :: 0 <= i < |rows| && x == TrimSpace(FirstField(rows[i])) && !Contains(x, "Prefix")
  {
    CollectMember(rows, BgpPrefixRow, x);
  }

  /** Every value the bgp.he.net prefix scan emits is a single trimmed field. */
  lemma BgpCidrsAreFields(rows: seq<string>)
    ensures forall x :: x in Collect(rows, BgpPrefixRow) ==> IsField(x)
  {
    forall x | x in Collect(rows, BgpPrefixRow) ensures IsField(x) {
      CollectMember(rows, BgpPrefixRow, x);
      var i :| 0 <= i < |rows| && BgpPrefixRow(rows[i]) == Some(x);
      TrimmedFirstFieldIsField(rows[i]);
    }
  }

  /**
   * Only the first field is tested: a row whose description mentions "Prefix"
   * still yields its field.
   */
  lemma BgpRowOfLayout(cidr: string, desc: string)
    requires cidr != [] && IsField(cidr)
    requires desc != [] && !IsSpace(desc[|desc| - 1])
    ensures BgpPrefixRow(cidr + "  " + desc) == if Contains(cidr, "Prefix") then None else Some(cidr)
  {
    FirstFieldOfRow(cidr, desc);
  }

  // ---------------------------------------------------------------------
  // ASNSpyse (spyse.com)
  // ---------------------------------------------------------------------

  /** What one row of the spyse.com table does to the scan. */
  datatype RowStep = Skip | Emit(cidr: string) | Panic

  /** How a scan ends: with the CIDRs, or with Go's index-out-of-range panic at a row. */
  datatype Outcome = Returned(cidrs: seq<string>) | IndexOutOfRange(row: nat)

  /**
   * A row of the spyse.com table: skipped when its first field mentions
   * "CIDR"; otherwise it needs a second field, since the description is read from
   * `data[len(data)-2]`.
   */
  function SpyseRow(text: string): (r: RowStep)
    ensures r.Skip? <==> Contains(TrimSpace(FirstField(text)), "CIDR")
    ensures r.Emit? ==> IsField(r.cidr) && !Contains(r.cidr, "CIDR")
  {
    TrimmedFirstFieldIsField(text);
    var data := Split(TrimSpace(text), "  ");
    var cidr := TrimSpace(data[0]);
    if Contains(cidr, "CIDR") then Skip
    else if |data| < 2 then Panic
    else Emit(cidr)
  }

  /** The CIDR a spyse.com row would give if reading the description never failed. */
  function SpyseCidr(text: string): Option<string>
  {
    var cidr := TrimSpace(FirstField(text));
    if Contains(cidr, "CIDR") then None else Some(cidr)
  }

  /** The spyse.com rows scanned in order, stopping at the first panic. */
  function SpyseScan(rows: seq<string>): (r: Outcome)
    ensures r.IndexOutOfRange? ==> r.row < |rows|
    ensures r.Returned? ==> |r.cidrs| <= |rows| && forall x :: x in r.cidrs ==> IsField(x) && !Contains(x, "CIDR")
    decreases |rows|
  {
    if rows == [] then Returned([])
    else
      var n := |rows| - 1;
      match SpyseScan(rows[..n])
      case IndexOutOfRange(j) => IndexOutOfRange(j)
      case Returned(acc) =>
        match SpyseRow(rows[n])
        case Skip => Returned(acc)
        case Emit(cidr) => Returned(acc + [cidr])
        case Panic => IndexOutOfRange(n)
  }

  function SpyseResult(asn: string, render: (string, string) -> string, parse: string -> Option<Document>): Outcome
  {
    match parse(render(SpyseUrl(asn), "asn-ipv4-ranges"))
    case None => Returned([])
    case Some(doc) => SpyseScan(doc.rows)
  }

  /** Without a panicking row the scan returns the CIDR of every row not mentioning "CIDR", in order. */
  lemma {:induction false} SpyseScanReturns(rows: seq<string>)
    requires forall i :: 0 <= i < |rows| ==> !SpyseRow(rows[i]).Panic?
    ensures SpyseScan(rows) == Returned(Collect(rows, SpyseCidr))
    decreases |rows|
  {
    if rows != [] {
      var n := |rows| - 1;
      var pre := rows[..n];
      forall i | 0 <= i < n
        ensures !SpyseRow(pre[i]).Panic?
      {
        assert pre[i] == rows[i];
      }
      SpyseScanReturns(pre);
      assert !SpyseRow(rows[n]).Panic?;
      SpyseRowCidr(rows[n]);
      assert Collect(rows, SpyseCidr) == Collect(pre, SpyseCidr) + Emitted(SpyseCidr(rows[n]));
    }
  }

  /** A panicking row makes the scan panic. */
  lemma {:induction false} SpyseScanPanics(rows: seq<string>, i: nat)
    requires i < |rows| && SpyseRow(rows[i]).Panic?
    ensures SpyseScan(rows).IndexOutOfRange?
    decreases |rows|
  {
    var n := |rows| - 1;
    if i < n {
      assert rows[..n][i] == rows[i];
      SpyseScanPanics(rows[..n], i);
    }
  }

  /** A panicking scan reports the first panicking row. */
  lemma {:induction false} SpyseScanPanicRow(rows: seq<string>)
    requires SpyseScan(rows).IndexOutOfRange?
    ensures SpyseScan(rows).row < |rows| && SpyseRow(rows[SpyseScan(rows).row]).Panic?
    ensures forall i :: 0 <= i < SpyseScan(rows).row ==> !SpyseRow(rows[i]).Panic?
    decreases |rows|
  {
    var n := |rows| - 1;
    var pre := rows[..n];
    if SpyseScan(pre).IndexOutOfRange? {
      SpyseScanPanicRow(pre);
      var j := SpyseScan(pre).row;
      assert SpyseScan(rows).row == j;
      assert rows[j] == pre[j];
      forall i | 0 <= i < j
        ensures !SpyseRow(rows[i]).Panic?
      {
        assert rows[i] == pre[i];
      }
    } else {
      assert SpyseScan(rows).row == n;
      forall i | 0 <= i < n
        ensures !SpyseRow(rows[i]).Panic?
      {
        assert rows[i] == pre[i];
        if SpyseRow(pre[i]).Panic? {
          SpyseScanPanics(pre, i);
        }
      }
    }
  }

  /**
   * The scan panics exactly when some row panics, and then at the first
   * such row; otherwise it returns the CIDR of every row not mentioning
   * "CIDR", in order.
   */
  lemma SpyseScanCharacterized(rows: seq<string>)
    ensures (forall i :: 0 <= i < |rows| ==> !SpyseRow(rows[i]).Panic?) ==>
      SpyseScan(rows) == Returned(Collect(rows, SpyseCidr))
    ensures (exists i :: 0 <= i < |rows| && SpyseRow(rows[i]).Panic?) <==> SpyseScan(rows).IndexOutOfRange?
    ensures SpyseScan(rows).IndexOutOfRange? ==>
      SpyseScan(rows).row < |rows| && SpyseRow(rows[SpyseScan(rows).row]).Panic? &&
      forall i :: 0 <= i < SpyseScan(rows).row ==> !SpyseRow(rows[i]).Panic?
  {
    if forall i :: 0 <= i < |rows| ==> !SpyseRow(rows[i]).Panic? {
      SpyseScanReturns(rows);
    } else {
      var i :| 0 <= i < |rows| && SpyseRow(rows[i]).Panic?;
      SpyseScanPanics(rows, i);
      SpyseScanPanicRow(rows);
    }
  }

  /** A row that does not panic emits exactly its CIDR, as `SpyseCidr` says. */
  lemma SpyseRowCidr(text: string)
    ensures SpyseRow(text).Skip? ==> SpyseCidr(text) == None
    ensures SpyseRow(text).Emit? ==> SpyseCidr(text) == Some(SpyseRow(text).cidr)
  {
  }

  /** A row panics exactly when its first field lacks "CIDR" and its trimmed text has no separator. */
  lemma SpyseRowPanicsIff(text: string)
    ensures SpyseRow(text).Panic? <==>
      !Contains(TrimSpace(FirstField(text)), "CIDR") && !Contains(TrimSpace(text), "  ")
  {
    SplitSingleIff(TrimSpace(text), "  ");
  }

  /**
   * A row with a single field, an empty row among them, stops the whole
   * scan, and what the earlier rows gave is lost.
   */
  lemma SpyseSingleFieldRowPanics(cidr: string, desc: string, single: string)
    requires cidr != [] && IsField(cidr) && !Contains(cidr, "CIDR")
    requires desc != [] && !IsSpace(desc[|desc| - 1])
    requires IsField(single) && !Contains(single, "CIDR")
    ensures SpyseScan([cidr + "  " + desc, single]) == IndexOutOfRange(1)
  {
    var r0 := cidr + "  " + desc;
    var rows := [r0, single];
    SpyseRowOfLayout(cidr, desc);
    SplitSingleIff(single, "  ");
    SplitFirstPiece(single, "  ");
    SpyseRowPanicsIff(single);
    assert rows[..1] == [r0] && [r0][..0] == [];
    SpyseScanStopsAt(rows, 1);
  }

  /** A row laid out as field, separator, description yields its field unless the field mentions "CIDR". */
  lemma SpyseRowOfLayout(cidr: string, desc: string)
    requires cidr != [] && IsField(cidr)
    requires desc != [] && !IsSpace(desc[|desc| - 1])
    ensures SpyseRow(cidr + "  " + desc) == if Contains(cidr, "CIDR") then Skip else Emit(cidr)
  {
    var row := cidr + "  " + desc;
    FirstFieldOfRow(cidr, desc);
    assert OccursAt(row, "  ", |cidr|);
    SplitSingleIff(row, "  ");
  }

  /** A panic at row `i` after a clean prefix is the outcome of the whole scan. */
  lemma SpyseScanStopsAt(rows: seq<string>, i: nat)
    requires i < |rows| && SpyseScan(rows[..i]).Returned? && SpyseRow(rows[i]).Panic?
    ensures SpyseScan(rows) == IndexOutOfRange(i)
  {
    SpyseScanCharacterized(rows[..i]);
    forall k | 0 <= k < i ensures !SpyseRow(rows[k]).Panic? {
      assert rows[..i][k] == rows[k];
    }
    SpyseScanCharacterized(rows);

  }

  /** Scanning one more row, after the earlier rows returned: what that row does to the scan. */
  lemma SpyseScanExtend(rows: seq<string>, i: nat)
    requires i < |rows| && SpyseScan(rows[..i]).Returned?
    ensures var acc := SpyseScan(rows[..i]).cidrs;
      match SpyseRow(rows[i])
      case Skip => SpyseScan(rows[..i + 1]) == Returned(acc)
      case Emit(cidr) => SpyseScan(rows[..i + 1]) == Returned(acc + [cidr])
      case Panic => SpyseScan(rows) == IndexOutOfRange(i)
  {
    assert rows[..i + 1][..i] == rows[..i];
    if SpyseRow(rows[i]).Panic? {
      SpyseScanStopsAt(rows, i);
    }
  }

  /** `ASNSpyse`: the rendered spyse.com page's rows, scanned in order. */
  method ASNSpyse(asn: string, render: (string, string) -> string, parse: string -> Option<Document>)
    returns (outcome: Outcome)
    ensures outcome == SpyseResult(asn, render, parse)
  {
    var url := SpyseUrl(asn);
    var result := [];
    var content := render(url, "asn-ipv4-ranges");
    var page := parse(content);
    if page.None? {
      return Returned(result);
    }
    var rows := page.value.rows;
    var i := 0;
    while i < |rows|
      invariant 0 <= i <= |rows|
      invariant SpyseScan(rows[..i]) == Returned(result)
    {
      var data := Split(TrimSpace(rows[i]), "  ");
      var cidr := TrimSpace(data[0]);
      SpyseScanExtend(rows, i);
      if !Contains(cidr, "CIDR") {
        if |data| < 2 {
          // reading data[len(data)-2] panics
          return IndexOutOfRange(i);
        }
        result := result + [cidr];
      }
      i := i + 1;
    }
    assert rows[..i] == rows;
    outcome := Returned(result);
  }

  // ---------------------------------------------------------------------
  // OrgBgpDotNet (bgp.he.net, by organisation)
  // ---------------------------------------------------------------------

  /**
   * A row of the bgp.he.net search results: skipped when its text mentions
   * "Result" or "Description"; otherwise the first line of its first field.
   */
  function OrgRow(text: string): (r: Option<string>)
    ensures r.None? <==> Contains(text, "Result") || Contains(text, "Description")
    ensures r.Some? ==> IsField(r.value) && !Contains(r.value, "\n")
  {
    FirstLineIsField(text);
    if Contains(text, "Result") || Contains(text, "Description") then None
    else Some(TrimSpace(Split(FirstField(text), "\n")[0]))
  }

  function OrgResult(org: string, render: (string, string) -> string, parse: string -> Option<Document>): seq<string>
  {
    match parse(render(BgpOrgUrl(org), "search"))
    case None => []
    case Some(doc) => Collect(doc.rows, OrgRow)
  }

  /** `OrgBgpDotNet`: the rendered bgp.he.net search page's rows, scanned in order. */
  method OrgBgpDotNet(org: string, render: (string, string) -> string, parse: string -> Option<Document>)
    returns (result: seq<string>)
    ensures result == OrgResult(org, render, parse)
  {
    var url := BgpOrgUrl(org);
    result := [];
    var content := render(url, "search");
    var page := parse(content);
    if page.None? {
      return;
    }
    var rows := page.value.rows;
    var i := 0;
    while i < |rows|
      invariant 0 <= i <= |rows|
      invariant result == Collect(rows[..i], OrgRow)
    {
      var text := rows[i];
      if !Contains(text, "Result") && !Contains(text, "Description") {
        var data := Split(TrimSpace(text), "  ")[0];
        var realData := Split(data, "\n");
        var cidr := TrimSpace(realData[0]);
        result := result + [cidr];
      }
      CollectSnoc(rows, i, OrgRow);
      i := i + 1;
    }
    assert rows[..i] == rows;
  }

  /** A value is emitted exactly when some row mentioning neither sentinel has it as its trimmed first line. */
  lemma OrgEmitsRowsWithoutSentinels(rows: seq<string>, x: string)
    ensures x in Collect(rows, OrgRow) <==>
      exists i :: 0 <= i < |rows| && !Contains(rows[i], "Result") && !Contains(rows[i], "Description")
        && x == TrimSpace(Split(FirstField(rows[i]), "\n")[0])
  {
    CollectMember(rows, OrgRow, x);
  }

  /** Every value the search scan emits is a single trimmed field on one line. */
  lemma OrgCidrsAreSingleLineFields(rows: seq<string>)
    ensures forall x :: x in Collect(rows, OrgRow) ==> IsField(x) && !Contains(x, "\n")
  {
    forall x | x in Collect(rows, OrgRow) ensures IsField(x) && !Contains(x, "\n") {
      CollectMember(rows, OrgRow, x);
    }
  }

  /** The trimmed first line of a row's first field is a single field on one line. */
  lemma FirstLineIsField(text: string)
    ensures IsField(TrimSpace(Split(FirstField(text), "\n")[0]))
    ensures !Contains(TrimSpace(Split(FirstField(text), "\n")[0]), "\n")
  {
    var field := FirstField(text);
    var line := Split(field, "\n")[0];
    var x := TrimSpace(line);
    FirstFieldIsPrefixUpToSeparator(text);
    SplitFirstPiece(field, "\n");
    SplitPiecesHaveNoSeparator(field, "\n");
    assert OccursAt(field, line, 0);
    if Contains(line, "  ") {
      ContainsTransitive(field, line, 0, "  ");
    }
    TrimmedPieceIsField(line);
    TrimSpaceSpec(line);
    if Contains(x, "\n") {
      ContainsTransitive(line, x, TrimStart(line), "\n");
    }
  }

  /** A one-line row laid out as field, separator, description yields its field unless it mentions a sentinel. */
  lemma OrgRowOfLayout(cidr: string, desc: string)
    requires cidr != [] && IsField(cidr) && !Contains(cidr, "\n")
    requires desc != [] && !IsSpace(desc[|desc| - 1])
    ensures var row := cidr + "  " + desc;
      OrgRow(row) == if Contains(row, "Result") || Contains(row, "Description") then None else Some(cidr)
  {
    FirstFieldOfRow(cidr, desc);
    SplitFirstPiece(cidr, "\n");
  }

  // ---------------------------------------------------------------------
  // IPv4Info (ipv4info.com)
  // ---------------------------------------------------------------------

  /** An anchor's href when it points at an organisation page ("/org/..."). */
  function OrgLink(href: Option<string>): (r: Option<string>)
    ensures r.Some? <==> href.Some? && HasPrefix(href.value, "/org/")
    ensures r.Some? ==> r == href
  {
    if href.Some? && HasPrefix(href.value, "/org/") then href else None
  }

  /** A cell's text when its style and class are exactly the ones CIDR cells carry. */
  function BoldCell(c: Cell): (r: Option<string>)
    ensures r.Some? <==> c.style == "padding: 0 0 0 0;" && c.className == "bold"
    ensures r.Some? ==> r.value == c.text
  {
    if c.style == "padding: 0 0 0 0;" && c.className == "bold" then Some(c.text) else None
  }

  /** What a crawl returns, and the URLs it fetched, in order. */
  datatype Crawl = Crawl(cidrs: seq<string>, requests: seq<string>)

  /**
   * The organisation pages visited in order: each is fetched and its CIDR
   * cells collected, until a page fails to parse.
   */
  function Traverse(links: seq<string>, get: string -> string, parse: string -> Option<Document>): (r: Crawl)
    ensures |r.requests| <= |links|
    ensures links != [] ==> r.requests != [] && r.requests[0] == IPv4InfoPageUrl(links[0])
    decreases |links|
  {
    if links == [] then Crawl([], [])
    else
      var url := IPv4InfoPageUrl(links[0]);
      match parse(get(url))
      case None => Crawl([], [url])
      case Some(doc) =>
        var rest := Traverse(links[1..], get, parse);
        Crawl(Collect(doc.cells, BoldCell) + rest.cidrs, [url] + rest.requests)
  }

  /** The distinct organisation links of a page, in first-seen order. */
  function OrgLinks(doc: Document): seq<string>
  {
    Uniq(Collect(doc.anchors, OrgLink))
  }

  function IPv4InfoResult(asn: string, get: string -> string, parse: string -> Option<Document>): Crawl
  {
    var url := IPv4InfoSearchUrl(asn);
    match parse(get(url))
    case None => Crawl([], [url])
    case Some(doc) =>
      var t := Traverse(OrgLinks(doc), get, parse);
      Crawl(t.cidrs, [url] + t.requests)
  }

  /** The `Each` callback over the search page's anchors: the "/org/" hrefs, in order. */
  method CollectOrgHrefs(anchors: seq<Option<string>>) returns (asnLinks: seq<string>)
    ensures asnLinks == Collect(anchors, OrgLink)
  {
    asnLinks := [];
    var i := 0;
    while i < |anchors|
      invariant 0 <= i <= |anchors|
      invariant asnLinks == Collect(anchors[..i], OrgLink)
    {
      if anchors[i].Some? {
        var href := anchors[i].value;
        if HasPrefix(href, "/org/") {
          asnLinks := asnLinks + [href];
        }
      }
      CollectSnoc(anchors, i, OrgLink);
      i := i + 1;
    }
    assert anchors[..i] == anchors;
  }

  /** The `Each` callback over an organisation page's cells: the selected cells' texts appended to `result`. */
  method AppendBoldCells(result: seq<string>, cells: seq<Cell>) returns (extended: seq<string>)
    ensures extended == result + Collect(cells, BoldCell)
  {
    extended := result;
    var k := 0;
    while k < |cells|
      invariant 0 <= k <= |cells|
      invariant extended == result + Collect(cells[..k], BoldCell)
    {
      var style := cells[k].style;
      var cls := cells[k].className;
      if style == "padding: 0 0 0 0;" && cls == "bold" {
        extended := extended + [cells[k].text];
      }
      CollectSnoc(cells, k, BoldCell);
      k := k + 1;
    }
    assert cells[..k] == cells;
  }

  /** Every one of the organisation pages `links` point at parses. */
  predicate AllPagesParse(links: seq<string>, get: string -> string, parse: string -> Option<Document>)
  {
    forall l :: l in links ==> parse(get(IPv4InfoPageUrl(l))).Some?
  }

  /**
   * When every page of `a` parses, crawling `a` then `b` is crawling `a`
   * and then crawling `b`.
   */
  lemma {:induction false} TraverseAppend(a: seq<string>, b: seq<string>, get: string -> string, parse: string -> Option<Document>)
    requires AllPagesParse(a, get, parse)
    ensures var ta, tb := Traverse(a, get, parse), Traverse(b, get, parse);
      Traverse(a + b, get, parse) == Crawl(ta.cidrs + tb.cidrs, ta.requests + tb.requests)
    decreases |a|
  {
    if a == [] {
      assert a + b == b;
    } else {
      var ab := a + b;
      assert ab[0] == a[0];
      assert ab[1..] == a[1..] + b;
      assert a[0] in a;
      TraverseAppend(a[1..], b, get, parse);
      var found := Collect(parse(get(IPv4InfoPageUrl(a[0]))).value.cells, BoldCell);
      var ra, tb := Traverse(a[1..], get, parse), Traverse(b, get, parse);
      assert found + (ra.cidrs + tb.cidrs) == (found + ra.cidrs) + tb.cidrs;
      assert [IPv4InfoPageUrl(a[0])] + (ra.requests + tb.requests) == ([IPv4InfoPageUrl(a[0])] + ra.requests) + tb.requests;
    }
  }

  /**
   * The `for` loop over the organisation links: fetch each page in turn and
   * collect its CIDR cells, returning early when a page fails to parse.
   */
  method CrawlOrgPages(links: seq<string>, get: string -> string, parse: string -> Option<Document>)
    returns (result: seq<string>, requests: seq<string>)
    ensures Crawl(result, requests) == Traverse(links, get, parse)
  {
    result, requests := [], [];
    var j := 0;
    while j < |links|
      invariant 0 <= j <= |links|
      invariant AllPagesParse(links[..j], get, parse)
      invariant Crawl(result, requests) == Traverse(links[..j], get, parse)
    {
      var pageUrl := IPv4InfoPageUrl(links[j]);
      requests := requests + [pageUrl];
      var sub := parse(get(pageUrl));
      if sub.None? {
        CrawlPageFails(links, get, parse, j);
        return;
      }
      CrawlPageParses(links, get, parse, j);
      result := AppendBoldCells(result, sub.value.cells);
      j := j + 1;
    }
    assert links[..j] == links;
  }

  /** A loop iteration whose page parses: the crawl so far, extended by that page. */
  lemma CrawlPageParses(links: seq<string>, get: string -> string, parse: string -> Option<Document>, j: nat)
    requires j < |links| && AllPagesParse(links[..j], get, parse)
    requires parse(get(IPv4InfoPageUrl(links[j]))).Some?
    ensures AllPagesParse(links[..j + 1], get, parse)
    ensures Traverse(links[..j + 1], get, parse) ==
      Crawl(Traverse(links[..j], get, parse).cidrs + Collect(parse(get(IPv4InfoPageUrl(links[j]))).value.cells, BoldCell),
            Traverse(links[..j], get, parse).requests + [IPv4InfoPageUrl(links[j])])
  {
    var url := IPv4InfoPageUrl(links[j]);
    assert links[..j] + [links[j]] == links[..j + 1];
    assert [links[j]][1..] == [];
    assert Traverse([links[j]], get, parse) == Crawl(Collect(parse(get(url)).value.cells, BoldCell) + [], [url] + []);
    TraverseAppend(links[..j], [links[j]], get, parse);
  }

  /**
   * A loop iteration whose page fails to parse, after pages that all
   * parsed: the crawl ends with that request, keeping the earlier cells.
   */
  lemma {:induction false} CrawlPageFails(links: seq<string>, get: string -> string, parse: string -> Option<Document>, j: nat)
    requires j < |links| && AllPagesParse(links[..j], get, parse)
    requires parse(get(IPv4InfoPageUrl(links[j]))).None?
    ensures Traverse(links, get, parse).cidrs == Traverse(links[..j], get, parse).cidrs
    ensures Traverse(links, get, parse).requests == Traverse(links[..j], get, parse).requests + [IPv4InfoPageUrl(links[j])]
    decreases j
  {
    if j == 0 {
      assert links[..0] == [];
    } else {
      var tail := links[1..];
      assert links[..j][0] == links[0] && links[..j][1..] == tail[..j - 1];
      assert links[0] in links[..j];
      assert tail[j - 1] == links[j];
      forall l | l in tail[..j - 1]
        ensures parse(get(IPv4InfoPageUrl(l))).Some?
      {
        assert l in links[..j];
      }
      CrawlPageFails(tail, get, parse, j - 1);
      var rest, restBefore := Traverse(tail, get, parse), Traverse(tail[..j - 1], get, parse);
      var u0 := IPv4InfoPageUrl(links[0]);
      assert [u0] + (restBefore.requests + [IPv4InfoPageUrl(links[j])]) == ([u0] + restBefore.requests) + [IPv4InfoPageUrl(links[j])];
    }
  }

  /** `IPv4Info`: the search page's organisation links, then each linked page's CIDR cells. */
  method IPv4Info(asn: string, get: string -> string, parse: string -> Option<Document>)
    returns (result: seq<string>, requests: seq<string>)
    ensures Crawl(result, requests) == IPv4InfoResult(asn, get, parse)
  {
    var url := IPv4InfoSearchUrl(asn);
    var content := get(url);
    var page := parse(content);
    if page.None? {
      return [], [url];
    }
    var asnLinks := CollectOrgHrefs(page.value.anchors);
    var links := Uniq(asnLinks);
    var pageRequests;
    result, pageRequests := CrawlOrgPages(links, get, parse);
    requests := [url] + pageRequests;
  }

  /**
   * The crawl fetches the links' pages in order, one request per link,
   * moves on only after a page parsed, and stops early only at a page that
   * did not parse.
   */
  lemma TraverseRequests(links: seq<string>, get: string -> string, parse: string -> Option<Document>)
    ensures var q := Traverse(links, get, parse).requests;
      && |q| <= |links|
      && (forall i :: 0 <= i < |q| ==> q[i] == IPv4InfoPageUrl(links[i]))
      && (forall i :: 0 <= i < |q| - 1 ==> parse(get(q[i])).Some?)
      && (|q| < |links| ==> |q| > 0 && parse(get(q[|q| - 1])).None?)
      && ((forall i :: 0 <= i < |links| ==> parse(get(IPv4InfoPageUrl(links[i]))).Some?) ==> |q| == |links|)
  {
    TraverseRequestsInOrder(links, get, parse);
    TraverseRequestsStop(links, get, parse);
    TraverseRequestsAll(links, get, parse);
  }

  /** The i-th request is the page of the i-th link. */
  lemma {:induction false} TraverseRequestsInOrder(links: seq<string>, get: string -> string, parse: string -> Option<Document>)
    ensures var q := Traverse(links, get, parse).requests;
      forall i :: 0 <= i < |q| ==> q[i] == IPv4InfoPageUrl(links[i])
    decreases |links|
  {
    if links != [] && parse(get(IPv4InfoPageUrl(links[0]))).Some? {
      var tail := links[1..];
      TraverseRequestsInOrder(tail, get, parse);
      var q, rest := Traverse(links, get, parse).requests, Traverse(tail, get, parse).requests;
      assert q == [IPv4InfoPageUrl(links[0])] + rest;
      assert forall i :: 1 <= i < |q| ==> q[i] == rest[i - 1] && links[i] == tail[i - 1];
    }
  }

  /** Every page requested before the last parsed, and a crawl that stops short stops at a page that did not. */
  lemma {:induction false} TraverseRequestsStop(links: seq<string>, get: string -> string, parse: string -> Option<Document>)
    ensures var q := Traverse(links, get, parse).requests;
      && (forall i :: 0 <= i < |q| - 1 ==> parse(get(q[i])).Some?)
      && (|q| < |links| ==> |q| > 0 && parse(get(q[|q| - 1])).None?)
    decreases |links|
  {
    if links != [] && parse(get(IPv4InfoPageUrl(links[0]))).Some? {
      var tail := links[1..];
      TraverseRequestsStop(tail, get, parse);
      var q, rest := Traverse(links, get, parse).requests, Traverse(tail, get, parse).requests;
      assert q == [IPv4InfoPageUrl(links[0])] + rest;
      forall i | 0 < i < |q| - 1 ensures parse(get(q[i])).Some? {
        assert q[i] == rest[i - 1];
      }
      if |q| < |links| {
        assert q[|q| - 1] == rest[|rest| - 1];
      }
    }
  }

  /** When every page parses, every link is requested. */
  lemma {:induction false} TraverseRequestsAll(links: seq<string>, get: string -> string, parse: string -> Option<Document>)
    ensures (forall i :: 0 <= i < |links| ==> parse(get(IPv4InfoPageUrl(links[i]))).Some?) ==>
      |Traverse(links, get, parse).requests| == |links|
    decreases |links|
  {
    if links != [] && forall i :: 0 <= i < |links| ==> parse(get(IPv4InfoPageUrl(links[i]))).Some? {
      var tail := links[1..];
      TraverseRequestsAll(tail, get, parse);
      forall i | 0 <= i < |tail| ensures parse(get(IPv4InfoPageUrl(tail[i]))).Some? {
        assert tail[i] == links[i + 1];
      }
      assert parse(get(IPv4InfoPageUrl(links[0]))).Some?;
    }
  }

  /**
   * A page that fails to parse ends the crawl: the result is what the
   * earlier pages gave, and no later page is fetched.
   */
  lemma {:induction false} TraverseStopsAtFailure(links: seq<string>, get: string -> string, parse: string -> Option<Document>, j: nat)
    requires j < |links| && parse(get(IPv4InfoPageUrl(links[j]))).None?
    ensures Traverse(links, get, parse).cidrs == Traverse(links[..j], get, parse).cidrs
    ensures Traverse(links, get, parse).requests == Traverse(links[..j + 1], get, parse).requests
    decreases j
  {
    if j > 0 && parse(get(IPv4InfoPageUrl(links[0]))).Some? {
      TraverseStopsAtFailure(links[1..], get, parse, j - 1);
      assert links[1..][..j - 1] == links[..j][1..];
      assert links[1..][..j] == links[..j + 1][1..];
    }
  }

  /** The organisation links are the distinct "/org/" hrefs of the page, each once. */
  lemma OrgLinksAreDistinctOrgHrefs(doc: Document)
    ensures NoDuplicates(OrgLinks(doc))
    ensures forall x :: x in OrgLinks(doc) <==>
      exists a :: 0 <= a < |doc.anchors| && doc.anchors[a] == Some(x) && HasPrefix(x, "/org/")
  {
    var found := Collect(doc.anchors, OrgLink);
    UniqSpec(found);
    forall x ensures x in OrgLinks(doc) <==>
      exists a :: 0 <= a < |doc.anchors| && doc.anchors[a] == Some(x) && HasPrefix(x, "/org/")
    {
      assert x in OrgLinks(doc) <==> x in found;
      CollectMember(doc.anchors, OrgLink, x);
      forall a | 0 <= a < |doc.anchors|
        ensures OrgLink(doc.anchors[a]) == Some(x) <==> doc.anchors[a] == Some(x) && HasPrefix(x, "/org/")
      {
      }
    }
  }

  /**
   * After the search page, every distinct organisation link is fetched at
   * most once, in first-seen order, as "http://ipv4info.com" + link, and
   * each exactly once when every organisation page parses.
   */
  lemma IPv4InfoFetchesEachLinkOnce(asn: string, get: string -> string, parse: string -> Option<Document>, doc: Document)
    requires parse(get(IPv4InfoSearchUrl(asn))) == Some(doc)
    ensures var q, links := IPv4InfoResult(asn, get, parse).requests, OrgLinks(doc);
      && 1 <= |q| <= 1 + |links|
      && q[0] == IPv4InfoSearchUrl(asn)
      && (forall i :: 1 <= i < |q| ==> q[i] == IPv4InfoPageUrl(links[i - 1]))
      && NoDuplicates(q[1..])
      && ((forall l :: l in links ==> parse(get(IPv4InfoPageUrl(l))).Some?) ==> |q| == 1 + |links|)
  {
    var links := OrgLinks(doc);
    var t := Traverse(links, get, parse);
    TraverseRequests(links, get, parse);
    UniqSpec(Collect(doc.anchors, OrgLink));
    TraverseRequestsDistinct(links, get, parse);
    var q := IPv4InfoResult(asn, get, parse).requests;
    assert q == [IPv4InfoSearchUrl(asn)] + t.requests;
    assert q[1..] == t.requests;
  }

  /** Distinct links are fetched as distinct URLs. */
  lemma TraverseRequestsDistinct(links: seq<string>, get: string -> string, parse: string -> Option<Document>)
    requires NoDuplicates(links)
    ensures NoDuplicates(Traverse(links, get, parse).requests)
  {
    var q := Traverse(links, get, parse).requests;
    TraverseRequests(links, get, parse);
    forall i, k | 0 <= i < k < |q| ensures q[i] != q[k] {
      if q[i] == q[k] {
        PageUrlInjective(links[i], links[k]);
      }
    }
  }

  /** A repeated organisation link is kept once, at its first position. */
  lemma OrgLinksOfRepeatedAnchor(l1: string, l2: string)
    requires l1 != l2 && HasPrefix(l1, "/org/") && HasPrefix(l2, "/org/")
    ensures OrgLinks(Document([], [Some(l1), Some(l1), Some(l2)], [])) == [l1, l2]
  {
    var anchors := [Some(l1), Some(l1), Some(l2)];
    CollectSnoc(anchors, 0, OrgLink);
    CollectSnoc(anchors, 1, OrgLink);
    CollectSnoc(anchors, 2, OrgLink);
    assert anchors[..0] == [] && anchors[..3] == anchors;
    assert Collect(anchors, OrgLink) == [l1, l1, l2];
    UniqRepeatedFirst(l1, l2);
  }

  /** Two organisation pages that parse are fetched in order, and their cells concatenated. */
  lemma TraverseTwoPages(get: string -> string, parse: string -> Option<Document>,
                         l1: string, l2: string, page1: Document, page2: Document)
    requires parse(get(IPv4InfoPageUrl(l1))) == Some(page1)
    requires parse(get(IPv4InfoPageUrl(l2))) == Some(page2)
    ensures Traverse([l1, l2], get, parse) ==
      Crawl(Collect(page1.cells, BoldCell) + Collect(page2.cells, BoldCell), [IPv4InfoPageUrl(l1), IPv4InfoPageUrl(l2)])
  {
    assert [l1][1..] == [] && [l2][1..] == [];
    var c1, c2 := Collect(page1.cells, BoldCell), Collect(page2.cells, BoldCell);
    assert Traverse([l1], get, parse) == Crawl(c1 + [], [IPv4InfoPageUrl(l1)] + []);
    assert Traverse([l2], get, parse) == Crawl(c2 + [], [IPv4InfoPageUrl(l2)] + []);
    TraverseAppend([l1], [l2], get, parse);
    assert [l1] + [l2] == [l1, l2];
  }

  /** Three anchors to two organisations cause exactly two secondary fetches, in order. */
  lemma IPv4InfoRepeatedLinkFetchedOnce(asn: string, get: string -> string, parse: string -> Option<Document>,
                                        l1: string, l2: string, page1: Document, page2: Document)
    requires l1 != l2 && HasPrefix(l1, "/org/") && HasPrefix(l2, "/org/")
    requires parse(get(IPv4InfoSearchUrl(asn))) == Some(Document([], [Some(l1), Some(l1), Some(l2)], []))
    requires parse(get(IPv4InfoPageUrl(l1))) == Some(page1)
    requires parse(get(IPv4InfoPageUrl(l2))) == Some(page2)
    ensures IPv4InfoResult(asn, get, parse) ==
      Crawl(Collect(page1.cells, BoldCell) + Collect(page2.cells, BoldCell),
            [IPv4InfoSearchUrl(asn), IPv4InfoPageUrl(l1), IPv4InfoPageUrl(l2)])
  {
    OrgLinksOfRepeatedAnchor(l1, l2);
    TraverseTwoPages(get, parse, l1, l2, page1, page2);
  }

  /** Only exact style and class select a cell; a missing attribute never does. */
  lemma BoldCellExamples(text: string)
    ensures BoldCell(Cell("padding: 0 0 0 0;", "bold", text)) == Some(text)
    ensures BoldCell(Cell("", "bold", text)) == None
    ensures BoldCell(Cell("padding: 0 0 0 0;", "", text)) == None
    ensures BoldCell(Cell("padding: 0 0 0 0; ", "bold", text)) == None
    ensures BoldCell(Cell("padding: 0 0 0 0;", "bold big", text)) == None
  {
  }

  // ---------------------------------------------------------------------
  // ASNLookup (asnlookup.com JSON API)
  // ---------------------------------------------------------------------

  /**
   * What `json.Unmarshal` into a string slice gives. It checks that the
   * whole body is well-formed JSON before it writes to the slice, so a
   * malformed body leaves the slice empty; a well-formed body of the wrong
   * shape (an object, or an array holding a number) is a type mismatch,
   * after which the slice may be non-empty. `partial` is that slice, and
   * nothing is stated about its contents.
   */
  datatype Decoded = Decoded(items: seq<string>) | SyntaxError | TypeMismatch(partial: seq<string>)

  /** `ASNLookup`: an empty body gives nothing; otherwise the decoder's slice, error or not. */
  function ASNLookup(org: string, get: string -> string, decode: string -> Decoded): (r: seq<string>)
    ensures get(AsnLookupUrl(org)) == "" ==> r == []
    ensures get(AsnLookupUrl(org)) != "" && decode(get(AsnLookupUrl(org))).Decoded? ==>
      r == decode(get(AsnLookupUrl(org))).items
    ensures get(AsnLookupUrl(org)) != "" && decode(get(AsnLookupUrl(org))).SyntaxError? ==> r == []
    ensures get(AsnLookupUrl(org)) != "" && decode(get(AsnLookupUrl(org))).TypeMismatch? ==>
      r == decode(get(AsnLookupUrl(org))).partial
  {
    var data := get(AsnLookupUrl(org));
    if data == "" then []
    else match decode(data)
      case Decoded(items) => items
      case SyntaxError => []
      case TypeMismatch(partial) => partial
  }

  /**
   * The lookup fails open: an empty or malformed body gives nothing and
   * never an error, and only a well-formed body can give a value.
   */
  lemma ASNLookupFailsOpen(org: string, get: string -> string, decode: string -> Decoded)
    ensures var body := get(AsnLookupUrl(org));
      body == "" || decode(body).SyntaxError? ==> ASNLookup(org, get, decode) == []
    ensures var body := get(AsnLookupUrl(org));
      ASNLookup(org, get, decode) != [] ==> body != "" && !decode(body).SyntaxError?
  {
  }

  // ---------------------------------------------------------------------
  // Fail-open behaviour of all adapters
  // ---------------------------------------------------------------------

  /**
   * When every fetch returns the empty body, every adapter returns nothing,
   * and none panics, whatever the parser makes of "" (a failure or an
   * empty page).
   */
  lemma EmptyResponsesYieldNothing(asn: string, org: string, parse: string -> Option<Document>, decode: string -> Decoded)
    requires parse("") == None || parse("") == Some(EmptyDocument)
    ensures IPInfoResult(asn, (u: string, w: string) => "", parse) == []
    ensures BgpAsnResult(asn, (u: string, w: string) => "", parse) == []
    ensures SpyseResult(asn, (u: string, w: string) => "", parse) == Returned([])
    ensures OrgResult(org, (u: string, w: string) => "", parse) == []
    ensures IPv4InfoResult(asn, (u: string) => "", parse).cidrs == []
    ensures ASNLookup(org, (u: string) => "", decode) == []
  {
    if parse("").Some? {
      assert Collect(EmptyDocument.anchors, OrgLink) == [];
    }
  }
}
