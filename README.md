# php-krb5 credential caches, modelled in Dafny

This project models the credential-cache layer of the php-krb5 extension
(`php7/krb5.c`): the PHP class `KRB5CCache`, which owns a private MEMORY
credential cache, and the helpers it is built from. The cache is abstract.
It holds an optional primary client principal and a sequence of credentials.
Each credential has a client, an optional server, times, ticket flags, a
session-key enctype, an encoded ticket and addresses. Two cache primitives
are taken as given: initialise for a principal, which empties the cache, and
store one credential, which appends it.

On top of those, the model covers:
- the cursor-based cache copy behind `open()` and `save()`;
- the primary-TGT lookup, for `krbtgt/REALM@REALM` (section 7.3 of RFC 4120),
  and the `isValid()`/`getLifetime()` queries on it;
- the renewal policy and the state change of `renew()`;
- the ticket listings `getEntries()` and `getTktAttrs()`, including:
  - the prefix filter;
  - the flag renderer over the TicketFlags of section 5.3 of RFC 4120;
  - the `"enctype N"` fallback label;
  - IPv4 address strings;
- the acquisition sequences of `initPassword()` and `initKeytab()`, with their
  options array and the optional verification against a keytab;
- `getName()`, `getPrincipal()` and `getRealm()`.

Mutable things are classes:
- `NativeCache.Ccache` is a native cache. Its `principal` and `creds` fields
  are updated in place.
- `KRB5CCache.CCacheObject` is the PHP object. It holds its cache and the
  remembered keytab.

Each PHP method is a method of `CCacheObject`. Its postcondition ties the new
state and the reply to a specification function of the old state, and the
properties are proved about those functions.

The outside world is passed in as parameters:
- Calls into the Kerberos library are the function fields of
  `Krb5Types.Library`: parsing and unparsing names, enctype names, ticket
  decoding, keytab access, the KDC exchanges, renewal and verification.
- `Krb5Types.Faults` gives the outcome of each fallible cache primitive within
  one call: initialise, cursor start, options allocation and the k-th store.
- The clock is a parameter: `now` for `isValid()`, and `Option<int>` for
  `renew()`, where a failed read is modelled.
- The registry of caches reachable by locator (`krb5_cc_resolve`) is a
  `map<string, Ccache>` argument of `open()`/`save()`.
- The host's open_basedir verdict is an `allowed` argument of `initKeytab()`.

PHP exceptions become the sequence of `Error` values a call raises, in order.
A PHP boolean reply becomes `Reply(value, raised)`.

The model follows the code on these points, each easy to misread:
- `renew()` past the renew-till time but before the end time returns TRUE
  without touching the cache. `retval` stays 0 on that path; it is not a
  failure.
- `isValid()` can raise. A failed TGT lookup raises the lookup helper's own
  exception before `isValid()` returns FALSE; it does not fail silently.
- Validity boundary: with 100 seconds left, `isValid(40)` is TRUE, because
  40 + 60 > 100 is false, and `isValid(41)` is FALSE.
- Option flags are normalised through `zval_get_long(v) != 0`, not through
  PHP truthiness. A non-numeric string such as `"yes"` clears the flag.
- When `open()`/`save()` fail at the cursor or at a store, the copy helper
  raises nothing of its own. The caller then raises its single "Failed to
  copy" exception.

## Model

| member | source | states |
|---|---|---|
| Base.CString | php7/krb5.c:315-333 | a string handed to C is its part before the first NUL: a prefix of the input, either all of it or ending where a NUL stood |
| Base.SplitLocator | php7/krb5.c:568-572 | a `type:residual` locator splits at its first colon into a colon-free type and the rest; no split exactly when there is no colon |
| Base.LocatorRoundTrip | php7/krb5.c:568-572 | joining a colon-free type and a name with ":" and splitting again gives back the type and the name |
| Text.NatToDigits | php7/krb5.c:1155 | decimal rendering of a natural number: only digits, at least one, no leading zero, at most three digits below 1000 |
| Text.FormatInt | php7/krb5.c:1155 | `%d` rendering: non-empty, NUL-free, a leading '-' exactly for negative values |
| Text.DigitsRoundTrip | php7/krb5.c:1155 | reading back the digits of a natural number gives the number |
| Text.StrToLongOfDigits | php7/krb5.c:279 | the string-to-integer conversion of zval_get_long reads a digit string, and a '-' followed by one, as its value and its negation |
| Text.FormatIntRoundTrip | php7/krb5.c:279 | converting the `%d` rendering of any integer back to an integer gives that integer |
| NativeCache.Ccache.constructor | php7/krb5.c:253 | a new cache has the given type and name, no principal and no credentials |
| NativeCache.Ccache.Initialize | php7/krb5.c:359 | initialising for p leaves exactly (p, no credentials), whatever the cache held; a failed call changes nothing |
| NativeCache.Ccache.Store | php7/krb5.c:379 | storing appends the credential and keeps the principal; a failed call changes nothing |
| NativeCache.FirstFailure | php7/krb5.c:377-384 | the first store that fails, or the end: every earlier store succeeded and the one found failed |
| NativeCache.CopySpec | php7/krb5.c:350-390 | success replaces the destination by the source's principal and credentials in order; without a source principal or after a failed initialise the destination is unchanged; otherwise it holds the source principal and a prefix of the source credentials, a strict prefix when a store fails |
| NativeCache.CopyCCache | php7/krb5.c:350-390 | the cursor loop leaves exactly what CopySpec describes, including a copy of a cache onto itself, where the reinitialisation has already emptied the source |
| NativeCache.CopyIgnoresOldDest | php7/krb5.c:359-384 | copy is a replace, not a merge: once the initialise succeeds, the destination's old contents make no difference |
| NativeCache.SaveTwiceIsSaveOnce | php7/krb5.c:612-638 | saving into the same destination a second time leaves what saving once leaves |
| NativeCache.SelfCopyEmpties | php7/krb5.c:359-384 | copying a cache onto itself keeps its principal and drops every credential |
| InitCredsOpts.StrOpt | php7/krb5.c:315-333 | a string option is set exactly when its key is present, to the part of its string value before the first NUL |
| InitCredsOpts.ParseInitCredsOpts | php7/krb5.c:267-337 | a non-array is an error and an array never is; each of the seven options is set exactly when its whitelisted key is present: a flag to whether zval_get_long of the entry is non-zero, an integer to zval_get_long of the entry, a string to the part of zval_get_string of the entry before its first NUL; an empty array gives the library defaults |
| InitCredsOpts.IgnoresUnknownKeys | php7/krb5.c:267-337 | adding or replacing any key outside the seven whitelisted ones leaves the parsed options unchanged |
| InitCredsOpts.PlainProxiableIgnored | php7/krb5.c:285 | because the lookup length counts the terminator, an ordinary "proxiable" key never has an effect |
| InitCredsOpts.FlagNormalisation | php7/krb5.c:279 | true and non-zero integers set a flag; false, null and 0 clear it; the decimal string of n sets it exactly when n is non-zero |
| Expiry.FindPrimaryTgt | php7/krb5.c:446 | the cache-only lookup finds the first credential whose client is the primary principal and whose server is krbtgt of its realm, or none when there is no such credential |
| Expiry.TgtExpire | php7/krb5.c:411-470 | no principal and no realm are distinct errors; the lookup succeeds exactly when the cache holds the primary TGT and returns the end and renew-till times of the first one |
| Expiry.TgtExpireIgnoresLaterTickets | php7/krb5.c:446 | once the primary TGT is found, credentials stored after it do not change the result |
| Expiry.FirstPrimaryTgtKept | php7/krb5.c:446 | appending credentials after a found TGT keeps the same index |
| Expiry.StillValidMonotone | php7/krb5.c:1028-1030 | asking for less remaining time never turns a valid ticket invalid |
| Expiry.WrapLong | php7/krb5.c:1028 | the 64-bit wrap of a sum lies in the long range and is congruent to the sum |
| Expiry.AsWrittenOverflow | php7/krb5.c:1028-1030 | with one hour left, need = 3600 is refused but need = LONG_MAX is accepted by the wrapping sum, and refused by the corrected test |
| Expiry.StillValidBoundary | php7/krb5.c:1028-1030 | with 100 seconds left a margin of 40 passes and a margin of 41 fails |
| Expiry.DecideRenew | php7/krb5.c:1257-1261 | renewal proceeds exactly when now <= renew_until; past it, the ticket counts as still usable exactly when now < endtime |
| Expiry.RenewSpec | php7/krb5.c:1229-1300 | a failed lookup leaves the cache unchanged and raises the helper's and renew's exceptions; the cache changes only by a successful renewal or by a store that fails after the reinitialisation |
| Expiry.RenewPastWindow | php7/krb5.c:1257-1261 | past renew_until the cache is untouched, no exception is raised, and the reply is true exactly when now < endtime |
| Expiry.RenewReplacesAll | php7/krb5.c:1263-1285 | a successful renewal leaves the same principal and exactly one credential, the renewed one |
| Expiry.RenewLateFailures | php7/krb5.c:1277-1285 | with a renewed ticket in hand, a failed initialise or store makes renew() return false |
| Tickets.Rendered | php7/krb5.c:1122-1142 | a rendering has at most one character per table row |
| Tickets.FlagString | php7/krb5.c:1122-1142 | the flags string has at most fifteen characters |
| Tickets.RenderedHasCharIff | php7/krb5.c:1122-1142 | with distinct row characters, a row's character occurs in the rendering exactly when its bit is set |
| Tickets.RenderedCharsFrom | php7/krb5.c:1122-1142 | every character of a rendering comes from some row of the table |
| Tickets.RenderedStep | php7/krb5.c:1122-1142 | adding one row to the table appends that row's contribution |
| Tickets.RenderedSplits | php7/krb5.c:1122-1142 | the order is fixed by the table: splitting the table anywhere splits the rendering the same way |
| Tickets.ForwardableRenewable | php7/krb5.c:1125-1132 | a forwardable, renewable ticket renders as "FR" |
| Tickets.AllFlags | php7/krb5.c:1125-1141 | with every bit set the rendering is "FfPpDdiRIAHTOea" |
| Tickets.FlagStringHasCharIff | php7/krb5.c:1125-1141 | each of the fifteen characters occurs in the flags string exactly when its bit is set |
| Tickets.RenderedCount | php7/krb5.c:1122-1142 | the rendering has as many characters as there are rows with their bit set |
| Tickets.RenderFlags | php7/krb5.c:1122-1142 | the guarded stores into the 65-byte buffer produce exactly the flags string, which never exceeds 64 characters |
| Tickets.EnctypeLabel | php7/krb5.c:1146-1175 | the library's name when it has one; otherwise "enctype " followed by a decimal rendering that reads back as the enctype |
| Tickets.FormatIPv4 | php7/krb5.c:1183-1195 | 7 to 15 characters, so it fits an INET_ADDRSTRLEN buffer, and splitting at '.' gives exactly four fields, the i-th the decimal digits of address byte i |
| Tickets.AddressStrings | php7/krb5.c:1180-1205 | no more strings than addresses, each 7 to 15 characters long |
| Tickets.AddressStringsCount | php7/krb5.c:1183 | exactly one string per INET address of length 4; all other entries are skipped |
| Tickets.AddressList | php7/krb5.c:1180-1205 | the walk over the address array yields exactly AddressStrings |
| Tickets.Servers | php7/krb5.c:977-990 | no more server principals than credentials |
| Tickets.ServerNamesCorrect | php7/krb5.c:977-1001 | the listing exists exactly when every server principal renders; it then holds one name per credential with a server, in cache order |
| Tickets.ServerNamesFailureSticks | php7/krb5.c:986-1001 | a rendering failure part way through loses the whole listing |
| Tickets.StrNEqIsSliceEq | php7/krb5.c:1097 | on a NUL-free name at least as long as the prefix, the strncmp test agrees with byte equality of the compared parts |
| Tickets.PrefixWantedIsBytePrefix | php7/krb5.c:1074-1097 | the filter accepts a name exactly when the prefix is a byte prefix of it; an empty prefix accepts all |
| Tickets.CredRecord | php7/krb5.c:1085-1212 | the loop body builds exactly the record CredAttrs describes, or the same skip or error |
| Tickets.TktAttrsFailureSticks | php7/krb5.c:1219-1222 | the first failure decides the outcome whatever follows it |
| Tickets.TktAttrsMatchPrefix | php7/krb5.c:1097 | every listed record's server name starts with the prefix |
| Tickets.WithPrefix | php7/krb5.c:1096-1097 | the kept names are among the given ones and each starts with the prefix |
| Tickets.TktAttrsAreFilteredEntries | php7/krb5.c:1085-1222 | for any prefix, a successful listing means getEntries() would succeed too, and the records' server names are exactly getEntries()' names that start with the prefix, in cache order |
| Tickets.EmptyPrefixListsEntries | php7/krb5.c:1074 | with no prefix the records list the very names getEntries() lists, in the same order |
| Acquire.VerifyTgt | php7/krb5.c:474-547 | an empty keytab name or one that does not resolve never verifies; verification passes exactly when the keytab has a first entry and the library verifies the credential against that entry's principal |
| Acquire.AcquireSpec | php7/krb5.c:643-739 | success raises nothing and leaves (parsed principal, [obtained credential]); each failure raises exactly one exception; only a failed store or a failed verification can leave the cache changed |
| Acquire.AcquireReplaces | php7/krb5.c:706-714 | a successful acquisition leaves the same cache whatever it held before |
| Acquire.VerifyFailureKeepsTicket | php7/krb5.c:716-719 | a verification failure returns false with the new credential already stored |
| Acquire.NoVerifyKeytabSucceedsIff | php7/krb5.c:674-721 | without a verification keytab the call succeeds exactly when the name parses, the keytab resolves, the options are allocated, the KDC issues a ticket and the cache accepts it |
| KRB5CCache.PrincipalQuery | php7/krb5.c:860-888 | the principal's text exactly when there is a principal and it renders; otherwise "" and one exception |
| KRB5CCache.RealmQuery | php7/krb5.c:893-920 | the realm up to its first NUL (a NUL-free prefix that is either all of it or ends where a NUL stood) exactly when the principal and its realm exist; otherwise "" and one exception |
| KRB5CCache.LifetimeQuery | php7/krb5.c:925-945 | the TGT times exactly when the lookup succeeds; otherwise an empty array and the two exceptions |
| KRB5CCache.IsValidSpec | php7/krb5.c:1007-1035 | true exactly when the lookup succeeds and now + need + 60 <= endtime; any lookup failure is false with the helper's exception |
| KRB5CCache.EntriesQuery | php7/krb5.c:950-1002 | one name per server principal, in cache order, exactly when the cursor opens and every name renders; otherwise empty with one exception |
| KRB5CCache.TktAttrsQuery | php7/krb5.c:1040-1223 | succeeds exactly when the cursor opens and every step of the walk succeeds; then the records' server names are exactly getEntries()' names that start with the prefix, in order; a failure empties the result with one exception |
| KRB5CCache.CCacheObject.constructor | php7/krb5.c:240-262 | a new object owns a fresh, empty MEMORY cache and no keytab |
| KRB5CCache.CCacheObject.GetName | php7/krb5.c:555-576 | "TYPE:name", with the two lengths plus one, splitting back into type and name |
| KRB5CCache.CCacheObject.Open | php7/krb5.c:581-607 | an unknown locator changes nothing and raises one exception; otherwise this cache becomes what CopySpec gives, with the copy's exceptions followed by open's own on failure |
| KRB5CCache.CCacheObject.Save | php7/krb5.c:612-638 | an unknown locator raises one exception; otherwise the named cache becomes what CopySpec gives |
| KRB5CCache.CCacheObject.ObtainAndStore | php7/krb5.c:674-721 | the step sequence leaves the cache and the reply AcquireSpec describes |
| KRB5CCache.CCacheObject.InitPassword | php7/krb5.c:643-739 | cache and reply as AcquireSpec with the password; the keytab field is untouched |
| KRB5CCache.CCacheObject.InitKeytab | php7/krb5.c:744-855 | an open_basedir refusal changes nothing; otherwise cache and reply as AcquireSpec, and the keytab is remembered exactly on success |
| KRB5CCache.CCacheObject.GetPrincipal | php7/krb5.c:860-888 | the reply PrincipalQuery gives for the current cache |
| KRB5CCache.CCacheObject.GetRealm | php7/krb5.c:893-920 | the reply RealmQuery gives for the current cache |
| KRB5CCache.CCacheObject.GetLifetime | php7/krb5.c:925-945 | the reply LifetimeQuery gives for the current cache |
| KRB5CCache.CCacheObject.IsValid | php7/krb5.c:1007-1035 | the reply IsValidSpec gives for the current cache and clock |
| KRB5CCache.CCacheObject.GetEntries | php7/krb5.c:950-1002 | the cursor walk returns what EntriesQuery gives |
| KRB5CCache.CCacheObject.GetTktAttrs | php7/krb5.c:1040-1223 | the cursor walk returns what TktAttrsQuery gives |
| KRB5CCache.CCacheObject.Renew | php7/krb5.c:1229-1300 | the new cache and the reply are what RenewSpec gives for the old cache |
| KRB5CCache.LifetimeAgreesWithIsValid | php7/krb5.c:1020-1030 | isValid(n) holds exactly when getLifetime() yields an end time at least n + 60 seconds away |
| KRB5CCache.TgtRealmAgrees | php7/krb5.c:431-440 | when a primary TGT is found, getRealm() succeeds and the cache holds a ticket for krbtgt of that realm |
| KRB5CCache.CStringOfCStr | php7/krb5.c:917 | a NUL-free string reaches PHP unchanged |
| KRB5CCache.AcquireThenQuery | php7/krb5.c:706-714 | after a successful acquisition, the principal is the parsed name, getPrincipal() renders it, the cache holds one ticket, and getEntries() lists exactly that ticket's server name (nothing when it has no server) |
| KRB5CCache.AcquiredTgtIsValid | php7/krb5.c:1020-1030 | a newly acquired realm TGT with enough lifetime makes isValid() true without an exception |
| KRB5CCache.RenewedTgtIsValid | php7/krb5.c:1263-1285 | after a successful renewal to a realm TGT with enough lifetime, isValid() is true |

## Left out

- Module registration, class and constant export, MINFO/MSHUTDOWN, Zend object allocation and destruction, argument parsing failures ("Failed to parse arglist"): host glue. The keytab path of initKeytab() is taken as already NUL-free, because the path argument check refuses NUL bytes.
- open_basedir (777): modelled only as the `allowed` verdict passed to InitKeytab; its warning is not modelled.
- Kerberos library internals are uninterpreted fields of `Library`: the KDC exchanges, renewal, verification, ticket decoding, enctype names, name parsing and unparsing.
- Expiry.FindPrimaryTgt: the cache-only lookup of krb5_get_credentials with KRB5_GC_CACHED (446) is not a `Library` field. It is fixed as "the first credential whose client is the primary principal and whose server is krbtgt of its realm". Any other criterion the library applies, such as ticket times or enctypes, is not modelled. Because expired tickets are still found, the `Expired` outcome of DecideRenew stays reachable.
- The cursor's krb5_cc_next_cred errors cannot be told apart from the end of the cache in the source and are not modelled. The cursor sees the source as it stands once the destination is reinitialised.
- A failed cache initialise or store is assumed to leave the cache unchanged.
- Memory management: every free/efree, the resource-release order in php_krb5_verify_tgt (526-544) and the exceptions raised when releasing keytab resources fails; krb5_build_principal and krb5_copy_principal failing for lack of memory.
- Expiry.RenewSpec: renew() reads the principal from the cache a second time (1264-1266, "Failed to get principal from cache"). The model reuses the principal of the lookup, so that failure is not modelled.
- Heimdal branches (bulk krb5_cc_copy_cache, the tkt_enc label from the session-key enctype, krb5_principal_get_realm) and the pre-canonicalize options struct; the MIT cursor path is modelled.
- IPv6 address rendering (1197-1202): it formats the IPv4 buffer as IPv6 and copies without an upper length bound, so its output is undefined; only four-byte INET entries are rendered.
- KRB5CCache.CCacheObject.IsValid: the clock is a parameter; a failed clock read, which the source reports and then ignores, reading an unset `now`, is not modelled.
- Expiry.StillValid: the 64-bit wrap of `now + need + 60` is not part of the model's test; it is modelled separately (see Findings). Dafny integers are unbounded, so times and `tkt_life`/`renew_life` are not truncated to their C widths either.
- InitCredsOpts.ToLong: PHP doubles, objects and resources are not among the modelled values; strings are read as optional whitespace, an optional sign and decimal digits, without exponent or fraction and without overflow saturation.
- InitCredsOpts.ParseInitCredsOpts: canonicalize is read whether or not the library supports it (the HAVE_KRB5_INIT_CREDS_CANONICALIZE conditional).
- Tickets.FlagTable: enc-pa-rep is included as if TKT_FLG_ENC_PA_REP is defined.
- Expiry.TgtExpire: the realm is used as a Dafny string; a realm with an embedded NUL is not truncated before the krbtgt name is built.
- inet_ntop is modelled as the usual dotted-decimal rendering.

## Findings

| source | as written | input that shows it | evidently intended | confidence | as-written member | corrected member |
|---|---|---|---|---|---|---|
| php7/krb5.c:1028-1030 | `then = now + need + 60` is computed in a 64-bit `long`, so a huge `need` wraps to a negative deadline | TGT ending at now + 3600 with now = 1700000000: `isValid(3600)` is FALSE but `isValid(PHP_INT_MAX)` is TRUE | a larger `need` is never easier to satisfy (valid exactly when now + need + 60 <= endtime) | not executed | Expiry.AsWrittenOverflow | Expiry.StillValidMonotone |
