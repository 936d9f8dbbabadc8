/** The GeoIP module of a streaming server application: at application start it reads
    its properties and builds the country access list; on every client connection
    (RTMP, HTTP or RTP session) it refreshes the shared database and the exceptions
    list and decides whether the client's address is accepted. */
module GeoIPModule {
  import opened Java
  import opened Cidr
  import opened CountryAccess
  import ExceptionsFile
  import opened GeoDatabase

  /** The application properties the module reads; None is a property that is not set. */
  datatype AppProperties = AppProperties(
    geoipDefaultPermit: Option<bool>,
    geoipAllowCountries: Option<string>,
    geoipDenyCountries: Option<string>)

  /** The allow property's default: one empty country. */
  const DefaultAllowCountry: string := ""

  // ---------------------------------------------------------------------------
  // The decision of checkAddress

  /** What one exceptions line says about the client: Ok(true) accepts it (the line is
      the address, a range holding it, or the country's code or name), Ok(false) passes
      on to the next line, and an Err is the exception isInRange throws for a line that
      has a slash after its first character but no valid prefix after it. */
  function LineVerdict(line: string, ipAddress: string, country: Country): Result<bool>
  {
    if ipAddress == line then Ok(true)
    else
      var inSubnet := if IndexOf(line, '/') > 0 then IsInRange(line, ipAddress) else Ok(false);
      if inSubnet.Err? then Err(inSubnet.error)
      else if inSubnet.value then Ok(true)
      else Ok(country.code == line || country.name == line)
  }

  /** The loop over the exceptions list: the first line that does not pass on decides. */
  function ScanExceptions(lines: seq<string>, ipAddress: string, country: Country): Result<bool>
  {
    if lines == [] then Ok(false)
    else
      var v := LineVerdict(lines[0], ipAddress, country);
      if v != Ok(false) then v else ScanExceptions(lines[1..], ipAddress, country)
  }

  /** checkAddress, given the country the database reports: the exceptions first, then
      the first access-list entry naming the country's code or name, then the default. */
  function Decide(lines: seq<string>, entries: seq<Entry>, defaultPermit: bool,
                  country: Country, ipAddress: string): Result<bool>
  {
    var scan := ScanExceptions(lines, ipAddress, country);
    if scan != Ok(false) then scan
    else
      var listed := MapScan(entries, country.code, country.name);
      if listed.Some? then Ok(listed.value) else Ok(defaultPermit)
  }

  /** The line at k accepts and every line before it passes on. */
  predicate AcceptedAt(lines: seq<string>, ipAddress: string, country: Country, k: int)
  {
    && 0 <= k < |lines|
    && LineVerdict(lines[k], ipAddress, country) == Ok(true)
    && forall j :: 0 <= j < k ==> LineVerdict(lines[j], ipAddress, country) == Ok(false)
  }

  /** Every line passes on. */
  predicate AllPass(lines: seq<string>, ipAddress: string, country: Country)
  {
    forall k :: 0 <= k < |lines| ==> LineVerdict(lines[k], ipAddress, country) == Ok(false)
  }

  /** The scan accepts exactly when some line accepts and every line before it passes
      on. */
  lemma {:induction false} ScanAccepts(lines: seq<string>, ipAddress: string, country: Country)
    ensures ScanExceptions(lines, ipAddress, country) == Ok(true) <==>
              exists k :: AcceptedAt(lines, ipAddress, country, k)
  {
    if lines != [] {
      var rest := lines[1..];
      ScanAccepts(rest, ipAddress, country);
      if LineVerdict(lines[0], ipAddress, country) == Ok(false) {
        if ScanExceptions(rest, ipAddress, country) == Ok(true) {
          var k :| AcceptedAt(rest, ipAddress, country, k);
          forall j | 0 <= j < k + 1 ensures LineVerdict(lines[j], ipAddress, country) == Ok(false) {
            if j > 0 {
              assert lines[j] == rest[j - 1];
            }
          }
          assert AcceptedAt(lines, ipAddress, country, k + 1);
        }
        if exists k :: AcceptedAt(lines, ipAddress, country, k) {
          var k :| AcceptedAt(lines, ipAddress, country, k);
          assert k > 0;
          forall j | 0 <= j < k - 1 ensures LineVerdict(rest[j], ipAddress, country) == Ok(false) {
            assert rest[j] == lines[j + 1];
          }
          assert AcceptedAt(rest, ipAddress, country, k - 1);
        }
      } else if LineVerdict(lines[0], ipAddress, country) == Ok(true) {
        assert AcceptedAt(lines, ipAddress, country, 0);
      } else {
        forall k | AcceptedAt(lines, ipAddress, country, k) ensures k == 0 {
        }
      }
    }
  }

  /** The scan passes on exactly when every line does. */
  lemma {:induction false} ScanPasses(lines: seq<string>, ipAddress: string, country: Country)
    ensures ScanExceptions(lines, ipAddress, country) == Ok(false) <==> AllPass(lines, ipAddress, country)
  {
    if lines != [] {
      var rest := lines[1..];
      ScanPasses(rest, ipAddress, country);
      if LineVerdict(lines[0], ipAddress, country) == Ok(false) {
        if AllPass(rest, ipAddress, country) {
          forall k | 0 <= k < |lines| ensures LineVerdict(lines[k], ipAddress, country) == Ok(false) {
            if k > 0 {
              assert lines[k] == rest[k - 1];
            }
          }
        }
        if AllPass(lines, ipAddress, country) {
          forall k | 0 <= k < |rest| ensures LineVerdict(rest[k], ipAddress, country) == Ok(false) {
            assert rest[k] == lines[k + 1];
          }
        }
      }
    }
  }

  /** An exception out of the scan is the exception of one of the lines. */
  lemma {:induction false} ScanThrows(lines: seq<string>, ipAddress: string, country: Country)
    ensures ScanExceptions(lines, ipAddress, country).Err? ==>
              exists k :: 0 <= k < |lines| && LineVerdict(lines[k], ipAddress, country) == ScanExceptions(lines, ipAddress, country)
  {
    if lines != [] {
      var rest := lines[1..];
      ScanThrows(rest, ipAddress, country);
      if LineVerdict(lines[0], ipAddress, country) == Ok(false) && ScanExceptions(rest, ipAddress, country).Err? {
        var k :| 0 <= k < |rest| && LineVerdict(rest[k], ipAddress, country) == ScanExceptions(rest, ipAddress, country);
        assert lines[k + 1] == rest[k];
      }
    }
  }

  /** A line that throws stops the scan: when every line before it passes on, the
      scan throws its exception, whatever the lines after it say, even the client's
      exact address. */
  lemma {:induction false} ThrowHidesLater(lines: seq<string>, ipAddress: string, country: Country, k: int)
    requires 0 <= k < |lines| && LineVerdict(lines[k], ipAddress, country).Err?
    requires forall j :: 0 <= j < k ==> LineVerdict(lines[j], ipAddress, country) == Ok(false)
    ensures ScanExceptions(lines, ipAddress, country) == LineVerdict(lines[k], ipAddress, country)
  {
    if k > 0 {
      var rest := lines[1..];
      assert LineVerdict(lines[0], ipAddress, country) == Ok(false);
      forall j | 0 <= j < k - 1 ensures LineVerdict(rest[j], ipAddress, country) == Ok(false) {
        assert rest[j] == lines[j + 1];
      }
      assert rest[k - 1] == lines[k];
      ThrowHidesLater(rest, ipAddress, country, k - 1);
    }
  }

  /** What one line means: a line without a slash after its first character accepts
      its own address and the country's code or name and never throws; a line with
      one throws exactly when it is not the client's address and the text after the
      slash, up to the next one, is not a decimal int. */
  lemma LineVerdictMeaning(line: string, ipAddress: string, country: Country)
    ensures IndexOf(line, '/') <= 0 ==>
              LineVerdict(line, ipAddress, country) ==
                Ok(ipAddress == line || country.code == line || country.name == line)
    ensures IndexOf(line, '/') > 0 ==>
              (LineVerdict(line, ipAddress, country).Err? <==>
                 ipAddress != line && ParseInt(PrefixText(line[IndexOf(line, '/') + 1..])).Err?)
  {
    if IndexOf(line, '/') > 0 {
      IsInRangeMeaning(line, ipAddress);
      var inRange := IsInRange(line, ipAddress);
      if inRange.Ok? {
        LineVerdictInRange(line, ipAddress, country, inRange.value);
      } else {
        LineVerdictThrows(line, ipAddress, country);
      }
    }
  }

  /** A range line `a/p` with p in 0..32 accepts, besides its own text and the
      country's code or name, every address sharing a's leading p bits, and no
      other. */
  lemma LineVerdictRange(line: string, ipAddress: string, country: Country, p: int)
    requires IndexOf(line, '/') > 0
    requires 0 <= p <= 32
    requires ParseInt(PrefixText(line[IndexOf(line, '/') + 1..])) == Ok(p)
    ensures LineVerdict(line, ipAddress, country) ==
              Ok(|| ipAddress == line
                 || TopBits(IpToLong(line[..IndexOf(line, '/')]), p) == TopBits(IpToLong(ipAddress), p)
                 || country.code == line || country.name == line)
  {
    InRangeIffSamePrefix(line, ipAddress, p);
    LineVerdictInRange(line, ipAddress, country,
                       TopBits(IpToLong(line[..IndexOf(line, '/')]), p) == TopBits(IpToLong(ipAddress), p));
  }

  /** A line with a slash after its first character whose range test throws. */
  lemma LineVerdictThrows(line: string, ipAddress: string, country: Country)
    requires IndexOf(line, '/') > 0 && IsInRange(line, ipAddress).Err?
    ensures LineVerdict(line, ipAddress, country) ==
              if ipAddress == line then Ok(true) else Err(IsInRange(line, ipAddress).error)
  {
  }

  /** A range line `address/p`, p in 0..32 written in decimal, accepts exactly the
      addresses whose leading p bits are those of the address, besides its own text
      and the country's code or name. */
  lemma RangeLineMeaning(address: string, p: int, ipAddress: string, country: Country)
    requires address != [] && '/' !in address
    requires 0 <= p <= 32
    ensures var line := address + "/" + DecimalText(p);
            LineVerdict(line, ipAddress, country) ==
              Ok(|| ipAddress == line
                 || TopBits(IpToLong(address), p) == TopBits(IpToLong(ipAddress), p)
                 || country.code == line || country.name == line)
  {
    var line := address + "/" + DecimalText(p);
    DecimalTextOctet(p);
    IndexOfFirst(address, '/', DecimalText(p));
    var i := IndexOf(line, '/');
    assert line[..i] == address && line[i + 1..] == DecimalText(p);
    assert PrefixText(DecimalText(p)) == DecimalText(p);
    ParseIntDecimal(p);
    LineVerdictRange(line, ipAddress, country, p);
  }

  /** A line with a slash after its first character whose range test gives `inRange`. */
  lemma LineVerdictInRange(line: string, ipAddress: string, country: Country, inRange: bool)
    requires IndexOf(line, '/') > 0 && IsInRange(line, ipAddress) == Ok(inRange)
    ensures LineVerdict(line, ipAddress, country) ==
              Ok(ipAddress == line || inRange || country.code == line || country.name == line)
  {
  }

  lemma ExampleAddresses()
    ensures DottedQuad(10, 0, 0, 0) == "10.0.0.0" && DottedQuad(10, 5, 1, 2) == "10.5.1.2"
  {
    assert DecimalText(10) == "10" && DecimalText(0) == "0";
    assert DecimalText(5) == "5" && DecimalText(1) == "1" && DecimalText(2) == "2";
  }

  /** 10.0.0.0 and 10.5.1.2 share their leading 8 bits. */
  lemma ExampleTopBits()
    ensures TopBits(IpToLong("10.0.0.0"), 8) == 10 == TopBits(IpToLong("10.5.1.2"), 8)
  {
    ExampleAddresses();
    IpToLongDottedQuad(10, 0, 0, 0);
    IpToLongDottedQuad(10, 5, 1, 2);
    Pow2Values();
    DivUnique(10 * 0x100_0000, 0x100_0000, 10, 0);
    DivUnique(10 * 0x100_0000 + 5 * 0x1_0000 + 1 * 0x100 + 2, 0x100_0000, 10, 5 * 0x1_0000 + 1 * 0x100 + 2);
  }

  /** The exceptions line `10.0.0.0/8` accepts 10.5.1.2 whatever the access list, the
      default and the country. */
  lemma SubnetExample(entries: seq<Entry>, defaultPermit: bool, country: Country)
    ensures Decide(["10.0.0.0/8"], entries, defaultPermit, country, "10.5.1.2") == Ok(true)
  {
    assert "10.0.0.0" + "/" + DecimalText(8) == "10.0.0.0/8" by {
      assert DecimalText(8) == "8";
    }
    assert '/' !in "10.0.0.0";
    RangeLineMeaning("10.0.0.0", 8, "10.5.1.2", country);
    ExampleTopBits();
    assert LineVerdict("10.0.0.0/8", "10.5.1.2", country) == Ok(true);
  }

  /** With no exceptions, a client of a country named in the deny property is
      rejected even when the default permits. */
  lemma DenyExample(ipAddress: string)
    ensures Decide([], AccessListOf(DefaultAllowCountry, Some("RU")), true,
                   Country("RU", "Russian Federation"), ipAddress) == Ok(false)
  {
    assert Tokens("RU") == ["RU"] by {
      assert IndexOf("RU", '|') == -1;
    }
    assert Tokens("") == [""];
    DeniedCountryRejected([], DefaultAllowCountry, "RU", true, Country("RU", "Russian Federation"), ipAddress);
  }

  /** An address the database does not know reports the unknown country, which no
      default property lists, so the default decides. */
  lemma UnknownCountryExample(ipAddress: string, defaultPermit: bool)
    ensures Decide([], AccessListOf(DefaultAllowCountry, None), defaultPermit, UnknownCountry, ipAddress) ==
              Ok(defaultPermit)
  {
    assert Tokens("") == [""];
    ConfiguredDecision([], DefaultAllowCountry, None, defaultPermit, UnknownCountry, ipAddress);
  }

  /** The unknown country's name "N/A" holds a slash after its first character, so as
      an exceptions line it goes through isInRange, whose parseInt("A") throws: the
      line never matches by name, and throws for every other client. */
  lemma SlashedNameThrows(ipAddress: string)
    requires ipAddress != "N/A"
    ensures LineVerdict("N/A", ipAddress, UnknownCountry) == Err(NumberFormat)
  {
    assert "N/A" == "N" + ['/'] + "A";
    IndexOfFirst("N", '/', "A");
    PiecesCons("N", '/', "A");
    assert IndexOf("A", '/') == -1 by {
      assert '/' !in "A";
    }
    assert Pieces("N/A", '/') == ["N", "A"];
    assert Split("N/A", '/') == ["N", "A"];
    assert !AllDigits("A") by {
      assert !IsDigit("A"[0]);
    }
  }

  /** So a line "N/A" ahead of the client's own address hides it: the decision
      throws instead of accepting. */
  lemma SlashedNameHidesAddress()
    ensures Decide(["N/A", "1.2.3.4"], [], true, UnknownCountry, "1.2.3.4") == Err(NumberFormat)
  {
    SlashedNameThrows("1.2.3.4");
    ThrowHidesLater(["N/A", "1.2.3.4"], "1.2.3.4", UnknownCountry, 0);
  }

  /** The decision throws exactly when the exceptions scan throws; an exception that
      accepts the client wins over the access list and the default, so the exceptions
      list can grant but never deny. */
  lemma DecideOutcomes(lines: seq<string>, entries: seq<Entry>, defaultPermit: bool,
                       country: Country, ipAddress: string)
    ensures Decide(lines, entries, defaultPermit, country, ipAddress).Err? <==>
              ScanExceptions(lines, ipAddress, country).Err?
    ensures ScanExceptions(lines, ipAddress, country) == Ok(true) ==>
              Decide(lines, entries, defaultPermit, country, ipAddress) == Ok(true)
    ensures Decide(lines, entries, defaultPermit, country, ipAddress) == Ok(false) ==>
              ScanExceptions(lines, ipAddress, country) == Ok(false)
  {
  }

  /** After the exceptions pass on, the access list built from the properties decides:
      when neither the country's code nor its name is listed the default decides; when
      one is listed and the other is not listed differently, the listing decides; and
      when both are listed, the entry of whichever was put first decides, which is
      where the order of the map matters. */
  lemma ConfiguredDecision(lines: seq<string>, allowCountries: string, denyCountries: Option<string>,
                           defaultPermit: bool, country: Country, ipAddress: string)
    requires ScanExceptions(lines, ipAddress, country) == Ok(false)
    ensures var entries := AccessListOf(allowCountries, denyCountries);
            var byCode := Listing(allowCountries, denyCountries, country.code);
            var byName := Listing(allowCountries, denyCountries, country.name);
            var d := Decide(lines, entries, defaultPermit, country, ipAddress);
            && (byCode.None? && byName.None? ==> d == Ok(defaultPermit))
            && (byCode.Some? && (byName.None? || byName == byCode) ==> d == Ok(byCode.value))
            && (byName.Some? && (byCode.None? || byCode == byName) ==> d == Ok(byName.value))
            && d.Ok?
            && (byCode.Some? && byName.Some? ==>
                  exists i :: FirstKeyAt(entries, country.code, country.name, i) && d == Ok(entries[i].1))
  {
    var entries := AccessListOf(allowCountries, denyCountries);
    AccessListMeaning(allowCountries, denyCountries, country.code);
    AccessListMeaning(allowCountries, denyCountries, country.name);
    MapScanMeaning(entries, country.code, country.name);
    MapScanFirst(entries, country.code, country.name);
  }

  /** A country named in the deny property is rejected unless an exception accepts the
      client, whatever the allow property and the default say, provided the country's
      other identifier is not only allowed. */
  lemma DeniedCountryRejected(lines: seq<string>, allowCountries: string, deny: string,
                              defaultPermit: bool, country: Country, ipAddress: string)
    requires ScanExceptions(lines, ipAddress, country) == Ok(false)
    requires country.code in Tokens(deny)
    requires Listing(allowCountries, Some(deny), country.name) != Some(true)
    ensures Decide(lines, AccessListOf(allowCountries, Some(deny)), defaultPermit, country, ipAddress) == Ok(false)
  {
    ConfiguredDecision(lines, allowCountries, Some(deny), defaultPermit, country, ipAddress);
  }

  // ---------------------------------------------------------------------------
  // The module instance

  /** The for-each loops of onAppStart: put every token of a split property with one
      value, in order. */
  method PutEach(entries: seq<Entry>, keys: seq<string>, value: bool) returns (r: seq<Entry>)
    ensures r == PutAll(entries, keys, value)
  {
    r := entries;
    for i := 0 to |keys|
      invariant r == PutAll(entries, keys[..i], value)
    {
      PrefixStep(keys, i);
      r := Put(r, keys[i], value);
    }
    assert keys[..|keys|] == keys;
  }

  /** The map building of onAppStart: the allow tokens put as true, then the deny tokens (when the
      property is set) put as false; a property without `|` is put whole. */
  method BuildAccessList(allowCountries: string, denyCountries: Option<string>) returns (accessList: seq<Entry>)
    ensures accessList == AccessListOf(allowCountries, denyCountries)
  {
    accessList := [];
    if IndexOf(allowCountries, '|') >= 0 {
      accessList := PutEach(accessList, Split(allowCountries, '|'), true);
    } else {
      accessList := Put(accessList, allowCountries, true);
      assert [allowCountries][..0] == [];
    }
    assert accessList == PutAll([], Tokens(allowCountries), true);
    if denyCountries.Some? {
      var allowed := accessList;
      if IndexOf(denyCountries.value, '|') >= 0 {
        accessList := PutEach(accessList, Split(denyCountries.value, '|'), false);
      } else {
        accessList := Put(accessList, denyCountries.value, false);
        assert [denyCountries.value][..0] == [];
      }
      assert accessList == PutAll(allowed, Tokens(denyCountries.value), false);
    }
  }

  class GeoIP {
    /** The LookupService and its marker, shared by every instance. */
    const db: SharedDatabase
    var defaultPermit: bool
    var countryCodeAccessList: seq<Entry>
    var exceptions: seq<string>
    var exceptionsLastModified: int

    function Exceptions(): ExceptionsFile.ExceptionsState
      reads this
    {
      ExceptionsFile.ExceptionsState(exceptionsLastModified, exceptions)
    }

    /** A new instance over the shared database, with the field initialisers: no
        default permit, marker 0, and an empty map and list. */
    constructor (db: SharedDatabase)
      ensures this.db == db
      ensures defaultPermit == false && countryCodeAccessList == [] && Exceptions() == ExceptionsFile.ExceptionsState(0, [])
    {
      this.db := db;
      defaultPermit := false;
      countryCodeAccessList := [];
      exceptions := [];
      exceptionsLastModified := 0;
    }

    /** onAppStart: read the properties, build the access list, empty the exceptions
        list, then refresh the database and the exceptions. */
    method OnAppStart(props: AppProperties, dbFile: DatabaseFile, exceptionsFile: ExceptionsFile.TextFile, now: int)
      modifies this, db
      ensures defaultPermit == (if props.geoipDefaultPermit.Some? then props.geoipDefaultPermit.value else old(defaultPermit))
      ensures countryCodeAccessList ==
                AccessListOf(if props.geoipAllowCountries.Some? then props.geoipAllowCountries.value else DefaultAllowCountry,
                             props.geoipDenyCountries)
      ensures db.State() == GeoDatabase.Refreshed(old(db.State()), dbFile, now)
      ensures Exceptions() == ExceptionsFile.Refreshed(ExceptionsFile.ExceptionsState(old(exceptionsLastModified), []), exceptionsFile)
    {
      if props.geoipDefaultPermit.Some? {
        defaultPermit := props.geoipDefaultPermit.value;
      }
      var allowCountries := if props.geoipAllowCountries.Some? then props.geoipAllowCountries.value else DefaultAllowCountry;
      var denyCountries := props.geoipDenyCountries;

      var accessList := BuildAccessList(allowCountries, denyCountries);
      countryCodeAccessList := accessList;

      exceptions := [];
      db.Refresh(dbFile, now);
      RefreshExceptions(exceptionsFile);
    }

    /** refreshExceptions: reload the exceptions when the file's lastModified() is not
        the marker. */
    method RefreshExceptions(file: ExceptionsFile.TextFile)
      modifies this
      ensures Exceptions() == ExceptionsFile.Refreshed(old(Exceptions()), file)
      ensures defaultPermit == old(defaultPermit) && countryCodeAccessList == old(countryCodeAccessList)
    {
      if exceptionsLastModified == file.LastModified() {
        return;
      }
      if file.present {
        exceptionsLastModified := file.LastModified();
        if !file.readable {
          return;
        }
        var lines := file.contents;
        var kept := [];
        var i := 0;
        while i < |lines|
          invariant 0 <= i <= |lines|
          invariant kept == ExceptionsFile.NonComments(lines[..i])
        {
          var strLine := lines[i];
          assert lines[..i + 1][..i] == lines[..i] by { PrefixStep(lines, i); }
          if !ExceptionsFile.IsComment(strLine) {
            kept := kept + [strLine];
          }
          i := i + 1;
        }
        assert lines[..i] == lines;
        exceptions := kept;
      } else {
        exceptions := [];
      }
    }

    /** checkAddress: look the client's country up, then decide. With no handle
        checkAddress throws NullPointerException before anything else; callers check it. */
    method CheckAddress(clientIpAddress: string) returns (r: Result<bool>)
      requires db.cl.Some?
      ensures r == Decide(exceptions, countryCodeAccessList, defaultPermit,
                          db.cl.value.GetCountry(clientIpAddress), clientIpAddress)
    {
      var clientCountry := db.cl.value.GetCountry(clientIpAddress);

      var i := 0;
      while i < |exceptions|
        invariant 0 <= i <= |exceptions|
        invariant ScanExceptions(exceptions[i..], clientIpAddress, clientCountry) ==
                  ScanExceptions(exceptions, clientIpAddress, clientCountry)
      {
        var strLine := exceptions[i];
        SuffixStep(exceptions, i);
        if clientIpAddress == strLine {
          return Ok(true);
        }
        if IndexOf(strLine, '/') > 0 {
          var inRange := IsInRange(strLine, clientIpAddress);
          if inRange.Err? {
            return Err(inRange.error);
          }
          if inRange.value {
            return Ok(true);
          }
        }
        if clientCountry.code == strLine || clientCountry.name == strLine {
          return Ok(true);
        }
        i := i + 1;
      }

      var j := 0;
      while j < |countryCodeAccessList|
        invariant 0 <= j <= |countryCodeAccessList|
        invariant MapScan(countryCodeAccessList[j..], clientCountry.code, clientCountry.name) ==
                  MapScan(countryCodeAccessList, clientCountry.code, clientCountry.name)
      {
        var entry := countryCodeAccessList[j];
        SuffixStep(countryCodeAccessList, j);
        if clientCountry.code == entry.0 || clientCountry.name == entry.0 {
          if entry.1 {
            return Ok(true);
          } else {
            return Ok(false);
          }
        }
        j := j + 1;
      }

      if defaultPermit {
        return Ok(true);
      }
      return Ok(false);
    }

    /** onConnect, onHTTPSessionCreate and onRTPSessionCreate: refresh the database
        and the exceptions, then check the client's address. The session is rejected
        when the verdict is Ok(false); an Err is the exception the handler throws. */
    method HandleSession(clientIpAddress: string, dbFile: DatabaseFile, exceptionsFile: ExceptionsFile.TextFile, now: int)
      returns (verdict: Result<bool>)
      modifies this, db
      ensures db.State() == GeoDatabase.Refreshed(old(db.State()), dbFile, now)
      ensures Exceptions() == ExceptionsFile.Refreshed(old(Exceptions()), exceptionsFile)
      ensures defaultPermit == old(defaultPermit) && countryCodeAccessList == old(countryCodeAccessList)
      ensures verdict ==
                if db.cl.None? then Err(NullPointer)
                else Decide(exceptions, countryCodeAccessList, defaultPermit,
                            db.cl.value.GetCountry(clientIpAddress), clientIpAddress)
    {
      db.Refresh(dbFile, now);
      RefreshExceptions(exceptionsFile);
      if db.cl.None? {
        verdict := Err(NullPointer);
      } else {
        verdict := CheckAddress(clientIpAddress);
      }
    }
  }
}
