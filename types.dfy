/** The entities the credential-cache layer handles, and the Kerberos
    library it sits on, seen from above: library calls are the function
    fields of `Library`, and the outcome of each fallible cache primitive
    within one operation is given by `Faults`. */
module Krb5Types {
  import opened Base

  /** A principal: its name components and its realm. `realm` is `None`
      when the library hands back no realm data for it (the NULL case of
      the realm accessor). */
  datatype Principal = Principal(components: seq<string>, realm: Option<string>)

  /** Ticket times, in seconds since the epoch. */
  datatype Times = Times(authtime: int, starttime: int, endtime: int, renewTill: int)

  /** A client address as the library stores it: a type code and raw bytes. */
  datatype Address = Address(addrType: int, contents: seq<bv8>)

  const ADDRTYPE_INET: int := 2

  /** One stored ticket. `server` is `None` for a credential without a
      server principal; `ticket` is the encoded ticket, opaque here. */
  datatype Credential = Credential(
    client: Principal,
    server: Option<Principal>,
    times: Times,
    ticketFlags: bv32,
    keyEnctype: int,
    ticket: seq<bv8>,
    addresses: seq<Address>)

  /** The contents of a credential cache: the primary client principal it
      was initialised for (none before the first initialisation) and its
      credentials in iteration order. */
  datatype CacheState = CacheState(principal: Option<Principal>, creds: seq<Credential>)

  /** The options record handed to the initial-credentials request;
      `None` leaves the library default in place. */
  datatype CredOpts = CredOpts(
    forwardable: Option<bool>,
    proxiable: Option<bool>,
    canonicalize: Option<bool>,
    tktLife: Option<int>,
    renewLife: Option<int>,
    serviceName: Option<CStr>,
    verifyKeytab: Option<CStr>)

  const DefaultOpts: CredOpts := CredOpts(None, None, None, None, None, None, None)

  /** The failures the extension reports, one per diagnostic it raises. */
  datatype Error =
    | PrincipalLookup   // no primary principal could be read from a cache
    | CacheInit         // krb5_cc_initialize failed
    | CacheWrite        // krb5_cc_store_cred failed
    | CursorStart       // a cache iteration cursor could not be opened
    | CacheResolve      // a cache locator could not be resolved
    | CacheCopy         // open()/save(): the copy of a cache failed
    | RealmExtract      // the primary principal has no realm data
    | TgtLookup         // no primary TGT in the cache
    | TgtTimes          // getLifetime(): the TGT times could not be read
    | RenewUntil        // renew(): the TGT times could not be read
    | ClockRead         // renew(): the clock could not be read
    | RenewTgt          // the KDC did not renew the TGT
    | ParseName         // a principal name did not parse
    | KeytabLoad        // a keytab could not be resolved
    | OptsAlloc         // the options record could not be allocated
    | OptsParse         // the options argument was not an array
    | GetTicket         // the initial-credentials request failed
    | VerifyTicket      // a new TGT failed verification against a keytab
    | UnparseName       // a principal could not be rendered as text
    | DecodeTicket      // an encoded ticket could not be decoded

  /** What a PHP method hands back: its boolean return value and the
      exceptions it raised, in the order raised. */
  datatype Reply = Reply(value: bool, raised: seq<Error>)

  /** The Kerberos library's behaviour, which this layer only orchestrates. */
  datatype Library = Library(
    parseName: string -> Option<Principal>,                      // krb5_parse_name
    unparseName: Principal -> Option<CStr>,                      // krb5_unparse_name
    enctypeName: int -> Option<CStr>,                            // krb5_enctype_to_string
    decodeTicket: seq<bv8> -> Option<int>,                       // krb5_decode_ticket: the enc-part enctype
    resolveKeytab: string -> bool,                               // krb5_kt_resolve
    keytabEntries: string -> Option<seq<Principal>>,             // the keytab's entries, None if unreadable
    initCredsPassword: (Principal, CStr, CredOpts) -> Option<Credential>,  // KDC exchange with a password
    initCredsKeytab: (Principal, string, CredOpts) -> Option<Credential>,  // KDC exchange with a keytab
    renewedCreds: (Principal, CacheState) -> Option<Credential>,           // krb5_get_renewed_creds
    verifyInitCreds: (Credential, Principal, string) -> bool)              // krb5_verify_init_creds

  /** Outcomes of the fallible cache and allocation primitives during one
      operation: `storeOk(k)` is the outcome of its k-th store. */
  datatype Faults = Faults(
    initOk: bool,
    cursorOk: bool,
    optsAllocOk: bool,
    storeOk: nat -> bool)
}
