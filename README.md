# GeoIP access control for Wowza Media Server, in Dafny

The project models the `GeoIP` module of wowza-geoip-simple. The module decides whether a
streaming client may connect, based on the client's IP address and the country it comes from.
Every new connection (RTMP, HTTP or RTP session) goes through three steps:

1. Refresh the shared GeoIP country database when its marker differs from the file's
   last-modified time. That is once the file has changed, but after the first reload
   the marker holds the clock time (see below), so from then on every connection
   reloads the file, changed or not.
2. Refresh the application's `geoip.exceptions` file if it has changed.
3. Decide.

The decision works in this order:

- **Exceptions file.** The lines are tried in order, and each is tested in three steps:
  1. Is it the client's exact address?
  2. If it has a '/' after its first character, does isInRange hold? This is tested
     for every such line, not only for ranges `a.b.c.d/n`.
  3. Is it the client's country code or country name?

  The first line that matches accepts the client. But step 2 throws when the text
  between the first slash and the next one (or the end) is missing or is not an int,
  and that exception skips every later line, even the client's own address. A country name with a slash in it is such a line:
  MaxMind's name for an unknown country, "N/A", throws for every client but "N/A"
  itself.
- **Country access list.** Otherwise the first entry whose key is the country's code or name
  decides. The list is built at application start from the `geoipAllowCountries` and
  `geoipDenyCountries` properties.
- **Default.** Otherwise `geoipDefaultPermit` decides.

The model keeps the Java code's own behaviour:

- `ipToLong` and `isInRange` use 32- and 64-bit two's-complement arithmetic. The mask
  `(2 << (31 - cidrMask)) - 1` wraps around for prefix 0 (`2 << 31` is 0, so the
  mask is -1), for prefix 1 (`2 << 30` is `Integer.MIN_VALUE`, and subtracting 1 wraps to
  `0x7FFFFFFF`), and for every prefix outside 0..32, whose shift distance Java takes
  mod 32.
- `String.split` drops the empty pieces at the end. `Integer.parseInt` can throw
  `NumberFormatException`, and `atoms[1]` can throw `ArrayIndexOutOfBoundsException`. Both exceptions escape `checkAddress`.
- `HashMap.put` on a key already present keeps the key and takes the new value.
- The database marker keeps the last-modified time after the first load, but the clock
  time after a reload.

Files:

- `java.dfy` (`Java`): the Java platform pieces the module uses: exceptions, int/long
  wrap-around, shifts, bitwise or, `indexOf`, `split`, `parseInt`, and a snapshot of
  what `java.io.File` reports.
- `cidr.dfy` (`Cidr`): `ipToLong` and `isInRange`. The lemmas say what a range
  match means: the two addresses agree on their first `n` bits.
- `country_access.dfy` (`CountryAccess`): the `HashMap` as a sequence of distinct keys, the
  map that `onAppStart` builds, and the scan over it.
- `exceptions_file.dfy` (`ExceptionsFile`): the comment filter and `refreshExceptions` as a
  function of the old state and the file.
- `geo_database.dfy` (`GeoDatabase`): the shared `LookupService` and its marker (two static
  fields, a class here) and `refreshDatabase`.
- `geoip.dfy` (`GeoIPModule`):
  - `checkAddress` as a reference function `Decide`.
  - The module instance as the class `GeoIP`, with `onAppStart`, `refreshExceptions`,
    `checkAddress` and the session handlers as methods proved against those functions.

## Model

| member | source | states |
|---|---|---|
| Java.ToInt | src/com/availo/wms/module/GeoIP.java:311 | the value in 32-bit int range that is congruent to the input modulo 2^32; inputs in range are unchanged |
| Java.ToLong | src/com/availo/wms/module/GeoIP.java:334-341 | the value in 64-bit long range congruent to the input modulo 2^64; inputs in range are unchanged |
| Java.OrDisjoint | src/com/availo/wms/module/GeoIP.java:341 | or-ing a value below 2^k into a multiple of 2^k is addition |
| Java.OrLowMask | src/com/availo/wms/module/GeoIP.java:315 | or-ing the mask of the k low bits sets those bits and keeps the rest |
| Java.IndexOf | src/com/availo/wms/module/GeoIP.java:96 | -1 exactly when the character is absent; otherwise the position of its first occurrence |
| Java.StartsWith | src/com/availo/wms/module/GeoIP.java:190 | `indexOf(prefix) == 0`: the line begins with the prefix |
| Java.SignedByte | src/com/availo/wms/module/GeoIP.java:333 | the signed Java byte `getAddress()` holds for an octet: the octet itself below 128, the octet minus 256 from 128 on |
| Java.UnsignedByte | src/com/availo/wms/module/GeoIP.java:334-340 | `b & 0xFF` on a byte widened to int: the byte taken mod 256; it inverts SignedByte (Cidr.ByteRoundTrip) |
| Java.Snapshot.LastModified | src/com/availo/wms/module/GeoIP.java:141 | `File.lastModified()`: the file's modification time, or 0L when the file does not exist; both refreshes test their marker against it |
| Java.Snapshot.CanOpen | src/com/availo/wms/module/GeoIP.java:181 | opening the file succeeds (`new FileInputStream` here, `new LookupService` at lines 142 and 151): it exists and is readable |
| Java.Pieces | src/com/availo/wms/module/GeoIP.java:97 | at least one piece, and no piece holds the separator |
| Java.PiecesJoin | src/com/availo/wms/module/GeoIP.java:97 | joining the pieces with the separator gives back the string |
| Java.PiecesCons | src/com/availo/wms/module/GeoIP.java:307 | text free of the separator, then the separator, splits as that text followed by the pieces of the rest |
| Java.DropTrailingEmpty | src/com/availo/wms/module/GeoIP.java:307 | the result is a prefix of the pieces; it ends in a non-empty piece; only empty pieces were dropped |
| Java.DecimalText | src/com/availo/wms/module/GeoIP.java:308 | the decimal text of a number is non-empty and all digits |
| Java.ShiftLeftInt | src/com/availo/wms/module/GeoIP.java:311 | int `<<`: the shift distance taken mod 32 and the product wrapped to int; its values for `2 << s` are Cidr.ShiftTwo |
| Java.ShiftLeftLong | src/com/availo/wms/module/GeoIP.java:335-339 | long `<<`: the distance mod 64 and the product wrapped to long; without overflow it is multiplication (Cidr.ShiftLeftLongExact) |
| Java.Or | src/com/availo/wms/module/GeoIP.java:315 | two's-complement bitwise or, bit by bit; its meaning on disjoint bits and low masks is Java.OrDisjoint and Java.OrLowMask |
| Java.Split | src/com/availo/wms/module/GeoIP.java:307 | `String.split` with a one-character pattern: the pieces with the empty ones at the end dropped (Java.PiecesJoin, Java.DropTrailingEmpty) |
| Java.DecimalRoundTrip | src/com/availo/wms/module/GeoIP.java:308 | the value of the decimal text of n is n |
| Java.ParseInt | src/com/availo/wms/module/GeoIP.java:308 | a parsed value is within int range |
| Java.ParseIntDecimal | src/com/availo/wms/module/GeoIP.java:308 | parseInt of the decimal text of n (or of -n) is n (or -n) whenever that fits an int |
| Cidr.Resolve | src/com/availo/wms/module/GeoIP.java:333 | an address resolves to exactly four octets, each in 0..255 |
| Cidr.IpToLong | src/com/availo/wms/module/GeoIP.java:330-347 | the result is a 32-bit unsigned address; an unresolvable address gives 0; otherwise the four octets weighted 2^24, 2^16, 2^8, 1 |
| Cidr.DecimalTextOctet | src/com/availo/wms/module/GeoIP.java:333 | the decimal text of an octet is octet text with that value, and holds no '.' or '/' |
| Cidr.PiecesOfFour | src/com/availo/wms/module/GeoIP.java:333 | four dot-free texts joined by dots split back into those four |
| Cidr.IpToLongDottedQuad | src/com/availo/wms/module/GeoIP.java:330-347 | the dotted quad a.b.c.d resolves to [a, b, c, d], and ipToLong gives a*2^24 + b*2^16 + c*2^8 + d |
| Cidr.ShiftLeftLongExact | src/com/availo/wms/module/GeoIP.java:335-339 | helper, one unfolding used by the lemmas about this operation: a left shift that does not overflow a long is multiplication by 2^n |
| Cidr.ByteRoundTrip | src/com/availo/wms/module/GeoIP.java:334-340 | masking the signed byte of an octet with 0xFF gives back the octet |
| Cidr.PackShifted | src/com/availo/wms/module/GeoIP.java:334-341 | the shifted-and-or'ed octets are the or of the octets times their weights |
| Cidr.OrOctets | src/com/availo/wms/module/GeoIP.java:341 | or-ing the weighted octets is adding them |
| Cidr.PackOctets | src/com/availo/wms/module/GeoIP.java:334-341 | shift-and-or packing of four octets equals a*2^24 + b*2^16 + c*2^8 + d |
| Cidr.ShiftCount | src/com/availo/wms/module/GeoIP.java:311 | the int shift distance 31 - cidrMask, taken mod 32 as Java does, is 31 - (cidrMask mod 32) |
| Cidr.ShiftTwo | src/com/availo/wms/module/GeoIP.java:311 | 2 << s is 0 for s = 31, Integer.MIN_VALUE for s = 30, and 2^(s+1) below that |
| Cidr.MaskValue | src/com/availo/wms/module/GeoIP.java:311 | tempMask is -1 when cidrMask mod 32 is 0, otherwise 2^(32 - cidrMask mod 32) - 1 |
| Cidr.MatchesAllOnes | src/com/availo/wms/module/GeoIP.java:311-315 | with an all-ones mask, any two addresses match |
| Cidr.MatchesLowMask | src/com/availo/wms/module/GeoIP.java:311-315 | with a mask of the low bits, two addresses match exactly when their top (cidrMask mod 32) bits agree |
| Cidr.MatchesMeaning | src/com/availo/wms/module/GeoIP.java:311-315 | /32 compares whole addresses; any other mask compares the top (cidrMask mod 32) bits |
| Cidr.TopBitsAll | src/com/availo/wms/module/GeoIP.java:312-313 | helper, one unfolding used by the lemmas about this operation: the top 32 bits of an address are the address |
| Cidr.MatchesIsPrefixAgreement | src/com/availo/wms/module/GeoIP.java:311-315 | for a prefix 0..32, a match is agreement on the first p bits; /32 is equality; /0 matches everything |
| Cidr.MatchesWraps | src/com/availo/wms/module/GeoIP.java:311 | any prefix other than 32 behaves like itself mod 32 (e.g. /40 acts as /8, /-1 as /31) |
| Cidr.PiecesHead | src/com/availo/wms/module/GeoIP.java:307 | helper, one unfolding used by the lemmas about this operation: the first piece is the text before the first separator, or all of it |
| Cidr.SplitRangeLine | src/com/availo/wms/module/GeoIP.java:307 | atoms[0] is the text before the first '/'; a non-empty second piece makes atoms[1] exist, and atoms[1] is always that piece |
| Cidr.IsInRangeMeaning | src/com/availo/wms/module/GeoIP.java:306-316 | isInRange throws exactly when the prefix text does not parse; otherwise it is the mask comparison of the two addresses |
| Cidr.InRangeIffSamePrefix | src/com/availo/wms/module/GeoIP.java:306-316 | for a prefix 0..32, an address is in the range iff it agrees with the range address on its first p bits |
| Cidr.AddressInOwnRange | src/com/availo/wms/module/GeoIP.java:306-316 | a range whose prefix parses holds its own base address |
| Cidr.Pack | src/com/availo/wms/module/GeoIP.java:334-341 | the shift-and-or of the four octets read back from signed bytes; its value is Cidr.PackOctets |
| Cidr.Mask | src/com/availo/wms/module/GeoIP.java:311 | `(2 << (31 - cidrMask)) - 1` in int arithmetic; its value is Cidr.MaskValue |
| Cidr.Matches | src/com/availo/wms/module/GeoIP.java:312-315 | equality for /32, otherwise equality after or-ing the mask into both addresses; its meaning is Cidr.MatchesIsPrefixAgreement and Cidr.MatchesWraps |
| Cidr.IsInRange | src/com/availo/wms/module/GeoIP.java:306-316 | split on '/', parseInt of atoms[1] (or its exceptions), then Matches of the two addresses; its meaning is Cidr.IsInRangeMeaning and Cidr.InRangeIffSamePrefix |
| CountryAccess.KeysCons | src/com/availo/wms/module/GeoIP.java:80 | the keys of one entry followed by more are that key plus theirs |
| CountryAccess.Get | src/com/availo/wms/module/GeoIP.java:80 | get gives nothing exactly when the key is absent |
| CountryAccess.Put | src/com/availo/wms/module/GeoIP.java:100 | put adds the key to the key set and keeps the keys distinct |
| CountryAccess.PutThenGet | src/com/availo/wms/module/GeoIP.java:100 | after put(key, v), get(key) is v and every other key reads as before |
| CountryAccess.PutAllThenGet | src/com/availo/wms/module/GeoIP.java:98-102 | after putting every token with v, a token reads v and any other key reads as before |
| CountryAccess.PutAllUnique | src/com/availo/wms/module/GeoIP.java:112-116 | putting tokens into a map keeps it a map |
| CountryAccess.AccessListMeaning | src/com/availo/wms/module/GeoIP.java:93-121 | the built map has distinct keys; a key reads false if it is a deny token, true if it is only an allow token, and absent otherwise |
| CountryAccess.EmptyKeyAllowedByDefault | src/com/availo/wms/module/GeoIP.java:63 | with no allow property the empty key is allowed, unless the deny property names it |
| CountryAccess.TokensMeaning | src/com/availo/wms/module/GeoIP.java:96-106 | no token holds '|'; text without '|' is one token; otherwise the tokens are the '|'-pieces minus the empty ones at the end |
| CountryAccess.MapScanMeaning | src/com/availo/wms/module/GeoIP.java:268-281 | the scan finds nothing iff neither the code nor the name is a key; any value found is the map's value for one of them; when they do not disagree it is that value |
| CountryAccess.ExampleTokens | src/com/availo/wms/module/GeoIP.java:96-106 | "NO\|SE" gives the tokens NO and SE; "NO" gives one token |
| CountryAccess.AllowDenyExample | src/com/availo/wms/module/GeoIP.java:93-121 | allow "NO\|SE" with deny "NO" denies NO and allows SE |
| CountryAccess.Tokens | src/com/availo/wms/module/GeoIP.java:96-120 | a property's tokens, split on '\|'; their meaning is CountryAccess.TokensMeaning |
| CountryAccess.PutAll | src/com/availo/wms/module/GeoIP.java:98-116 | put every token in turn with one value; its meaning is CountryAccess.PutAllThenGet and CountryAccess.PutAllUnique |
| CountryAccess.AccessListOf | src/com/availo/wms/module/GeoIP.java:93-121 | the allow tokens put as true, then the deny tokens as false; against the reference Listing in CountryAccess.AccessListMeaning |
| CountryAccess.MapScanFirst | src/com/availo/wms/module/GeoIP.java:268-281 | the scan finds something iff some entry is keyed by the code or the name, and then gives the value of the first such entry |
| CountryAccess.MapScan | src/com/availo/wms/module/GeoIP.java:268-281 | the value of the first entry keyed by the country's code or name; against Get in CountryAccess.MapScanMeaning and by position in CountryAccess.MapScanFirst |
| ExceptionsFile.NonCommentsAppend | src/com/availo/wms/module/GeoIP.java:189-193 | filtering a concatenation is concatenating the filterings: file order is kept |
| ExceptionsFile.NonCommentsMembers | src/com/availo/wms/module/GeoIP.java:190 | a line is kept iff it is in the file and does not start with "#", "//" or ";" |
| ExceptionsFile.NonCommentsIdempotent | src/com/availo/wms/module/GeoIP.java:190 | filtering twice is filtering once |
| ExceptionsFile.RefreshIdempotent | src/com/availo/wms/module/GeoIP.java:162-207 | a second refresh against the same file changes nothing |
| ExceptionsFile.RefreshUnchanged | src/com/availo/wms/module/GeoIP.java:167-169 | while the marker equals the file's lastModified(), a refresh changes nothing |
| ExceptionsFile.RefreshOutcomes | src/com/availo/wms/module/GeoIP.java:171-201 | when the file changed and opens, the marker is its time and the list is exactly its non-comment lines; a removed file empties the list and keeps the marker |
| ExceptionsFile.IsComment | src/com/availo/wms/module/GeoIP.java:190 | a line starting with "#", "//" or ";" |
| ExceptionsFile.NonComments | src/com/availo/wms/module/GeoIP.java:187-193 | the lines that are not comments, in file order; its meaning is ExceptionsFile.NonCommentsMembers and ExceptionsFile.NonCommentsAppend |
| ExceptionsFile.Refreshed | src/com/availo/wms/module/GeoIP.java:162-207 | refreshExceptions as a function of the old list and marker and the file; its outcomes are ExceptionsFile.RefreshOutcomes, ExceptionsFile.RefreshUnchanged and ExceptionsFile.RefreshIdempotent |
| GeoDatabase.SharedDatabase.constructor | src/com/availo/wms/module/GeoIP.java:41-47 | no handle, and a marker of 0 |
| GeoDatabase.SharedDatabase.Refresh | src/com/availo/wms/module/GeoIP.java:134-157 | the new handle and marker are Refreshed of the old ones, the file and the clock |
| GeoDatabase.HandleKept | src/com/availo/wms/module/GeoIP.java:139-152 | a handle, once made, is never lost; a missing handle is made exactly when the file opens, and the marker becomes the file's time either way; a reload makes the marker the clock, and keeps the old handle, closed, when the file does not open |
| GeoDatabase.FirstLoadIsStable | src/com/availo/wms/module/GeoIP.java:139-143 | the first load records the file's time and serves its table; refreshing again against the same file changes nothing |
| GeoDatabase.ReloadIffChanged | src/com/availo/wms/module/GeoIP.java:139-152 | with a handle, a refresh replaces it by a new one (a new generation) exactly when the marker differs from lastModified() and the file opens; an equal marker changes nothing at all |
| GeoDatabase.ReloadRepeats | src/com/availo/wms/module/GeoIP.java:146-152 | a reload records the clock, so unless the clock equals the file's time, the next refresh of the same file makes a new handle again |
| GeoDatabase.RefreshEach | src/com/availo/wms/module/GeoIP.java:146-152 | one refresh per connection, each at its own clock reading; its behaviour is GeoDatabase.ReloadsForever |
| GeoDatabase.ReloadsForever | src/com/availo/wms/module/GeoIP.java:146-152 | after a reload, n more refreshes of the same file at clock readings other than its time make n more handles, all reading that file |
| GeoDatabase.CurrentPreserved | src/com/availo/wms/module/GeoIP.java:134-157 | a handle serving the current file keeps serving it after a refresh |
| GeoDatabase.LookupAfterLoad | src/com/availo/wms/module/GeoIP.java:139-152 | after a load or reload from a file that opens, lookups answer from that file's table |
| GeoDatabase.Refreshed | src/com/availo/wms/module/GeoIP.java:134-157 | refreshDatabase as a function of the old handle and marker, the file and the clock; its behaviour is GeoDatabase.HandleKept, ReloadIffChanged, FirstLoadIsStable, ReloadRepeats, ReloadsForever and LookupAfterLoad |
| GeoIPModule.ScanAccepts | src/com/availo/wms/module/GeoIP.java:249-265 | the exceptions scan accepts iff some line accepts and every line before it does not match or throw |
| GeoIPModule.ScanPasses | src/com/availo/wms/module/GeoIP.java:249-265 | the scan falls through iff no line matches or throws |
| GeoIPModule.ScanThrows | src/com/availo/wms/module/GeoIP.java:256 | an exception from the scan is the exception of one of its lines |
| GeoIPModule.ThrowHidesLater | src/com/availo/wms/module/GeoIP.java:249-265 | a throwing line after lines that all pass makes the scan throw its exception, whatever the later lines say |
| GeoIPModule.LineVerdictMeaning | src/com/availo/wms/module/GeoIP.java:251-264 | a line without '/' after position 0 matches on address, code or name; one with it throws iff it is not the address and its prefix does not parse |
| GeoIPModule.LineVerdictRange | src/com/availo/wms/module/GeoIP.java:251-264 | for a range line with prefix 0..32, the line matches iff it is the address, the address agrees on the first p bits, or it is the code or name |
| GeoIPModule.LineVerdictThrows | src/com/availo/wms/module/GeoIP.java:251-256 | helper, one unfolding used by the lemmas about this operation: a range line whose check throws still accepts its exact address, and otherwise throws that exception |
| GeoIPModule.LineVerdictInRange | src/com/availo/wms/module/GeoIP.java:251-264 | helper, one unfolding used by the lemmas about this operation: a range line whose check succeeds matches on address, range, code or name |
| GeoIPModule.RangeLineMeaning | src/com/availo/wms/module/GeoIP.java:251-264 | the line "address/p" for p in 0..32 matches iff it is the address, the addresses share their first p bits, or it is the code or name |
| GeoIPModule.ExampleAddresses | src/com/availo/wms/module/GeoIP.java:333 | helper, one unfolding used by the lemmas about this operation: 10.0.0.0 and 10.5.1.2 are dotted quads |
| GeoIPModule.ExampleTopBits | src/com/availo/wms/module/GeoIP.java:306-316 | 10.0.0.0 and 10.5.1.2 share their first 8 bits |
| GeoIPModule.SubnetExample | src/com/availo/wms/module/GeoIP.java:256-258 | the exceptions line 10.0.0.0/8 accepts 10.5.1.2, whatever the map and default |
| GeoIPModule.DenyExample | src/com/availo/wms/module/GeoIP.java:276-279 | deny "RU" rejects a Russian client even when the default permits |
| GeoIPModule.UnknownCountryExample | src/com/availo/wms/module/GeoIP.java:284-291 | with no exceptions and no properties, an unknown country gets the default |
| GeoIPModule.SlashedNameThrows | src/com/availo/wms/module/GeoIP.java:256 | the exceptions line "N/A", the unknown country's name, throws NumberFormatException for every other client instead of matching by name |
| GeoIPModule.SlashedNameHidesAddress | src/com/availo/wms/module/GeoIP.java:249-265 | the lines "N/A" then "1.2.3.4" make the decision for 1.2.3.4 throw, although its exact address is listed |
| GeoIPModule.DecideOutcomes | src/com/availo/wms/module/GeoIP.java:245-293 | the decision throws iff the exceptions scan throws; an accepting scan accepts; a rejection means the scan fell through |
| GeoIPModule.ConfiguredDecision | src/com/availo/wms/module/GeoIP.java:267-291 | after the scan falls through, the verdict never throws; a country the properties do not list gets the default; one listed by code or name alone, or by both alike, gets that listing; one listed by both gets the value of the entry put first |
| GeoIPModule.DeniedCountryRejected | src/com/availo/wms/module/GeoIP.java:109-121 | a country whose code is a deny token, and whose name is not allowed, is rejected unless an exception accepts it |
| GeoIPModule.LineVerdict | src/com/availo/wms/module/GeoIP.java:250-264 | one exceptions line: exact address, then range (which may throw), then code or name; its meaning is GeoIPModule.LineVerdictMeaning, LineVerdictRange and RangeLineMeaning |
| GeoIPModule.ScanExceptions | src/com/availo/wms/module/GeoIP.java:249-265 | the first line whose verdict is not "no match" decides; its meaning is GeoIPModule.ScanAccepts, ScanPasses and ScanThrows |
| GeoIPModule.Decide | src/com/availo/wms/module/GeoIP.java:245-293 | the exceptions scan, then the map scan, then the default; its meaning is GeoIPModule.DecideOutcomes and ConfiguredDecision |
| GeoIPModule.PutEach | src/com/availo/wms/module/GeoIP.java:98-102 | the loop's map is PutAll of the tokens |
| GeoIPModule.BuildAccessList | src/com/availo/wms/module/GeoIP.java:93-121 | the built map is AccessListOf the two properties |
| GeoIPModule.GeoIP.constructor | src/com/availo/wms/module/GeoIP.java:53-63 | defaultPermit false, no entries, marker 0 and no exceptions |
| GeoIPModule.GeoIP.OnAppStart | src/com/availo/wms/module/GeoIP.java:87-129 | the property's defaultPermit (or the old one); the map of the two properties; the database refreshed; the exceptions refreshed from an empty list |
| GeoIPModule.GeoIP.RefreshExceptions | src/com/availo/wms/module/GeoIP.java:162-207 | the exceptions and marker are Refreshed of the old ones and the file; nothing else changes |
| GeoIPModule.GeoIP.CheckAddress | src/com/availo/wms/module/GeoIP.java:245-293 | the verdict is Decide of the exceptions, map, default and the client's looked-up country |
| GeoIPModule.GeoIP.HandleSession | src/com/availo/wms/module/GeoIP.java:209-238 | both refreshes happen, then a NullPointerException if there is still no handle, otherwise the checkAddress verdict |

## Left out

- Cidr.Resolve and Cidr.IpToLong resolve only strict dotted quads, each octet 1 to 3
  decimal digits with a value in 0..255. Every other text gives 0. `InetAddress.getByName`
  resolves more, and for those inputs the model's address differs from Java's:
  - host names, which Java looks up over the network (not modelled);
  - IPv6 literals, parsed locally: `"2001:db8::1"` gives 16 bytes, of which
    `ipToLong` packs the first four without an exception, giving 0x20010DB8;
  - IPv4-mapped IPv6 literals: `"::ffff:10.0.0.1"` gives 10.0.0.1;
  - the shorter IPv4 literal forms `d.d.d`, `d.d` and `d`: `"10.1"` gives 10.0.0.1;
  - fields of more than three digits: `"0010.0.0.1"` gives 10.0.0.1;
  - fields written with non-ASCII decimal digits, which Java's literal parser reads as
    digits;
  - the empty text, which Java resolves to the loopback address 127.0.0.1.
- Java.ParseInt accepts ASCII digits only. `Integer.parseInt` also accepts other Unicode
  decimal digits.
- Logging (`WMSLoggerFactory`) and the `e.printStackTrace()` in ipToLong's catch are left out. So are the host callbacks `client.call`,
  `rejectConnection` and `rejectSession`:
  - a verdict of `Ok(false)` stands for a rejection;
  - an `Err` stands for an exception escaping the handler.
- The three handlers are one method, `GeoIP.HandleSession`, because they differ only in
  how they get the client address and reject it.
- Files are snapshots taken at the call: existence, `lastModified()`, whether they open,
  and their contents. The paths, `applicationPath` and `geoipDatabasePath`, are not
  modelled. Neither is an `IOException` part-way through reading the exceptions file.
  There, Java keeps the lines read so far; the model reads a file completely or not at
  all.
- The clock (`System.currentTimeMillis`) is a parameter.
- A corrupt database file is treated as a file that does not open.
- MaxMind's `LookupService.getCountry` is modelled as a lookup in the table read when the
  handle was made; an address the table does not hold gives `("--", "N/A")`.
- A closed `LookupService` keeps answering from its table. The model records `close()`
  only as a flag.
- The static fields are shared by all instances, without synchronisation. The model has
  one shared object and no concurrency.
- `HashMap` iteration order is modelled as first-insertion order. Java's real order
  depends on hash codes. `MapScanMeaning` shows the verdict depends on order only when a
  country's code and name are listed with opposite values.
- `exceptions` and `countryCodeAccessList` are null until `onAppStart`. The model starts
  them empty, so a connection before `onAppStart` (which the server does not make) is an
  empty scan, not a NullPointerException.
- The `country != null` tests in onAppStart's put loops always succeed, because `split` never
  yields null. `allowCountries` is never null, because its default is "".
- On refreshExceptions for a file that has been removed, the code keeps the marker as
  it is. `lastModified()` of a missing file is 0, so the next refresh repeats the reset
  until the file comes back.
