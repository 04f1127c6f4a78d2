/**
 * The short-URL lifecycle: create, resolve (which counts the access), stats,
 * update and delete, over a record store whose ids come from an
 * auto-increment counter. A short code is never stored: it is always the
 * base-62 encoding of the record's id, and every lookup decodes it back.
 *
 * The record store is the `UrlStore` object handed to every operation; each
 * operation is one atomic step on it. Clock readings are passed in as `now`.
 */
module Shortener {
  import opened Wrappers
  import opened Strings
  import opened Base62
  import Validators

  /** One row of the `urls` table. */
  datatype Record = Record(id: nat, url: string, accessCount: nat, createdAt: nat, updatedAt: nat)

  datatype Error =
    | NotFound               // "Short URL not found"
    | DecodeFailed(c: char)  // decoding raised on `c`; the handlers report it as a server error
    | EmptyUrl               // "URL cannot be empty", raised by the update logic

  /** The HTTP status each failure ends up as. */
  function StatusCode(e: Error): nat {
    match e
    case NotFound => 404
    case DecodeFailed(_) => 500
    case EmptyUrl => 400
  }

  /** The short code of the record with this id. */
  function ShortCode(id: nat): string {
    Encoded(id, BASE62)
  }

  /** `ord(c) >= 32 or c in '\t\n\r'`: the characters create keeps. */
  predicate IsKept(c: char) {
    c as int >= 32 || c == '\t' || c == '\n' || c == '\r'
  }

  /** The characters of `s` that create keeps, in order. */
  function DropControl(s: string): (r: string)
    ensures |r| <= |s|
    ensures forall i :: 0 <= i < |r| ==> IsKept(r[i])
    ensures forall c :: c in r <==> c in s && IsKept(c)
    ensures (forall i :: 0 <= i < |s| ==> IsKept(s[i])) ==> r == s
  {
    if s == [] then []
    else (if IsKept(s[0]) then [s[0]] else []) + DropControl(s[1..])
  }

  /**
   * The filter works character by character: filtering a concatenation
   * filters each part, so the kept characters stay in their order.
   */
  lemma {:induction false} DropControlAppend(s: string, t: string)
    ensures DropControl(s + t) == DropControl(s) + DropControl(t)
  {
    if s != [] {
      assert (s + t)[1..] == s[1..] + t;
      DropControlAppend(s[1..], t);
    } else {
      assert s + t == t;
    }
  }

  /** `clean_url`: control characters dropped, then stripped. */
  function Cleaned(url: string): string {
    Strip(DropControl(url))
  }

  /** The URL create stores: stripped, control characters dropped, stripped again. */
  function Sanitized(url: string): string {
    Cleaned(Strip(url))
  }

  /** `access_counter`: one more access, seen at `now`. */
  function Accessed(rec: Record, now: nat): (r: Record)
    ensures r.accessCount == rec.accessCount + 1 && r.updatedAt == now
    ensures r.id == rec.id && r.url == rec.url && r.createdAt == rec.createdAt
  {
    rec.(accessCount := rec.accessCount + 1, updatedAt := now)
  }

  /** The table of URL records and the id sequence that numbers them. */
  class UrlStore {
    var records: map<nat, Record>
    var nextId: nat

    /** Ids are positive, below the next one to be handed out, and match their record. */
    ghost predicate Valid()
      reads this
    {
      nextId >= 1 && forall id :: id in records ==> 1 <= id < nextId && records[id].id == id
    }

    /** An empty table whose sequence starts at 1. */
    constructor ()
      ensures Valid() && records == map[] && nextId == 1
    {
      records := map[];
      nextId := 1;
    }

    function FindById(id: nat): Result<Record, Error>
      reads this
    {
      if id in records then Ok(records[id]) else Err(NotFound)
    }

    /** Decode the code, then look the id up. */
    function FindByCode(code: string): Result<Record, Error>
      reads this
    {
      match Decoded(code, BASE62)
      case Err(InvalidCharacter(c)) => Err(DecodeFailed(c))
      case Ok(id) => FindById(id)
    }
  }

  /** `get_url_object_by_shortCode`. */
  method GetUrlObjectByShortCode(store: UrlStore, code: string) returns (r: Result<Record, Error>)
    ensures r == store.FindByCode(code)
  {
    var decoded := Decode(code, BASE62);
    match decoded
    case Err(InvalidCharacter(c)) =>
      r := Err(DecodeFailed(c));
    case Ok(id) =>
      if id in store.records {
        r := Ok(store.records[id]);
      } else {
        r := Err(NotFound);
      }
  }

  /**
   * `update_url_logic`: the record must exist, then the new URL must not be
   * blank; it gets `https://` unless it has a scheme, and is stripped.
   */
  method UpdateUrlLogic(store: UrlStore, code: string, newUrl: string, now: nat)
    returns (r: Result<Record, Error>)
    requires store.Valid()
    modifies store
    ensures store.Valid() && store.nextId == old(store.nextId)
    ensures old(store.FindByCode(code)).Err? ==>
      r == old(store.FindByCode(code)) && store.records == old(store.records)
    ensures old(store.FindByCode(code)).Ok? && Validators.IsBlank(Some(newUrl)) ==>
      r == Err(EmptyUrl) && store.records == old(store.records)
    ensures old(store.FindByCode(code)).Ok? && !Validators.IsBlank(Some(newUrl)) ==>
      var before := old(store.FindByCode(code)).value;
      r.Ok? && r.value.id == before.id && r.value.accessCount == before.accessCount
      && r.value.createdAt == before.createdAt && r.value.updatedAt == now
      && r.value.url == Strip(Validators.WithScheme(newUrl))
      && store.records == old(store.records)[before.id := r.value]
  {
    var found := GetUrlObjectByShortCode(store, code);
    if found.Err? {
      return found;
    }
    if newUrl == [] || Strip(newUrl) == [] {
      return Err(EmptyUrl);
    }
    var url := newUrl;
    if !(StartsWith(url, Validators.HTTP) || StartsWith(url, Validators.HTTPS)) {
      url := Validators.HTTPS + url;
    }
    var updated := found.value.(url := Strip(url), updatedAt := now);
    store.records := store.records[updated.id := updated];
    r := Ok(updated);
  }

  /** `delete_url_logic`: the record must exist, and is removed for good. */
  method DeleteUrlLogic(store: UrlStore, code: string) returns (r: Result<(), Error>)
    requires store.Valid()
    modifies store
    ensures store.Valid() && store.nextId == old(store.nextId)
    ensures old(store.FindByCode(code)).Err? ==>
      r == Err(old(store.FindByCode(code)).error) && store.records == old(store.records)
    ensures old(store.FindByCode(code)).Ok? ==>
      r.Ok? && store.records == old(store.records) - {old(store.FindByCode(code)).value.id}
      && store.FindByCode(code) == Err(NotFound)
  {
    var found := GetUrlObjectByShortCode(store, code);
    if found.Err? {
      return Err(found.error);
    }
    store.records := store.records - {found.value.id};
    r := Ok(());
  }

  /** `GetOriginalUrl`: the lookups behind resolving a short code and reading its statistics. */
  class UrlLookup {
    const shortCode: string

    constructor (shortCode: string)
      ensures this.shortCode == shortCode
    {
      this.shortCode := shortCode;
    }

    /** `get_original_url_object`. */
    method OriginalUrlObject(store: UrlStore, id: nat) returns (r: Result<Record, Error>)
      ensures r.Ok? <==> id in store.records
      ensures r.Ok? ==> r.value == store.records[id]
      ensures r.Err? ==> r.error == NotFound
    {
      if id in store.records {
        r := Ok(store.records[id]);
      } else {
        r := Err(NotFound);
      }
    }

    /**
     * `get_original_url`: resolve the code and count the access. Only the
     * addressed record changes, and of it only the access count (by one) and
     * the update time.
     */
    method OriginalUrl(store: UrlStore, now: nat) returns (r: Result<Record, Error>)
      requires store.Valid()
      modifies store
      ensures store.Valid() && store.nextId == old(store.nextId)
      ensures r.Ok? <==> old(store.FindByCode(shortCode)).Ok?
      ensures r.Err? ==> r == old(store.FindByCode(shortCode)) && store.records == old(store.records)
      ensures r.Ok? ==>
        var before := old(store.FindByCode(shortCode)).value;
        r.value.accessCount == before.accessCount + 1 && r.value.updatedAt == now
        && r.value.id == before.id && r.value.url == before.url && r.value.createdAt == before.createdAt
        && store.records == old(store.records)[before.id := r.value]
    {
      var decoded := Decode(shortCode, BASE62);
      if decoded.Err? {
        return Err(DecodeFailed(decoded.error.c));
      }
      var found := OriginalUrlObject(store, decoded.value);
      if found.Err? {
        return found;
      }
      var accessed := Accessed(found.value, now);
      store.records := store.records[accessed.id := accessed];
      r := Ok(accessed);
    }

    /** `get_url_stats`: the same lookup, changing nothing. */
    method UrlStats(store: UrlStore) returns (r: Result<Record, Error>)
      ensures r == store.FindByCode(shortCode)
    {
      var decoded := Decode(shortCode, BASE62);
      if decoded.Err? {
        return Err(DecodeFailed(decoded.error.c));
      }
      r := OriginalUrlObject(store, decoded.value);
    }
  }

  /** `UrlShortener`: creating one inserts a record and derives its short code. */
  class UrlShortener {
    const url: string
    var id: nat
    var shortCode: string
    var createdAt: nat
    var updatedAt: nat

    /**
     * Strip the URL, insert it, encode the new id and read the record's
     * timestamps back. Exactly one record is added, under a fresh id.
     */
    constructor (store: UrlStore, url: string, now: nat)
      requires store.Valid()
      modifies store
      ensures store.Valid()
      ensures this.url == Strip(url)
      ensures id == old(store.nextId) && store.nextId == old(store.nextId) + 1
      ensures store.records == old(store.records)[id := Record(id, Sanitized(url), 0, now, now)]
      ensures shortCode == ShortCode(id) && createdAt == now && updatedAt == now
    {
      this.url := Strip(url);
      new;
      var newId := PostUrl(store, now);
      ghost var inserted := Record(newId, Sanitized(url), 0, now, now);
      assert store.records == old(store.records)[newId := inserted];
      var code := Encode(newId, BASE62);
      var stored := store.records[newId];
      id := newId;
      shortCode := code;
      createdAt := stored.createdAt;
      updatedAt := stored.updatedAt;
    }

    /** `_post_url`: insert the cleaned URL with no accesses and return the id it got. */
    method PostUrl(store: UrlStore, now: nat) returns (newId: nat)
      requires store.Valid()
      modifies store
      ensures store.Valid()
      ensures newId == old(store.nextId) && store.nextId == old(store.nextId) + 1
      ensures newId !in old(store.records)
      ensures store.records == old(store.records)[newId := Record(newId, Cleaned(url), 0, now, now)]
    {
      newId := store.nextId;
      var inserted := Record(newId, Cleaned(url), 0, now, now);
      store.nextId := store.nextId + 1;
      store.records := store.records[newId := inserted];
    }
  }

  // ---------------------------------------------------------------------------
  // Properties of the lifecycle
  // ---------------------------------------------------------------------------

  /** Short codes use only symbols of the fixed alphabet, never start with `0` unless the id is 0, and hold no whitespace. */
  lemma ShortCodeShape(id: nat)
    ensures ShortCode(id) != []
    ensures forall i :: 0 <= i < |ShortCode(id)| ==> ShortCode(id)[i] in BASE62 && !IsSpace(ShortCode(id)[i])
    ensures id > 0 ==> ShortCode(id)[0] != '0'
  {
    Base62IsAlphabet();
    forall i | 0 <= i < |ShortCode(id)|
      ensures !IsSpace(ShortCode(id)[i])
    {
      var c := ShortCode(id)[i];
      var k :| 0 <= k < |BASE62| && BASE62[k] == c;
      Base62RankAt(k);
      assert '0' <= c <= 'z';
    }
    if id > 0 {
      NoLeadingZero(id, BASE62);
      assert BASE62[0] == '0';
    }
  }

  /** Looking up the short code of a stored record returns that record. */
  lemma FindShortCode(store: UrlStore, id: nat)
    requires store.Valid() && id in store.records
    ensures store.FindByCode(ShortCode(id)) == Ok(store.records[id])
  {
    Base62IsAlphabet();
    RoundTrip(id, BASE62);
  }

  /**
   * A code the store never handed out, that of id 0 or of an id not yet
   * reached by the sequence, is not found.
   */
  lemma UnissuedCodeNotFound(store: UrlStore, id: nat)
    requires store.Valid() && (id == 0 || id >= store.nextId)
    ensures store.FindByCode(ShortCode(id)) == Err(NotFound)
  {
    Base62IsAlphabet();
    RoundTrip(id, BASE62);
  }

  /**
   * A lookup fails on decoding exactly when the code holds a character
   * outside the alphabet; the character reported is the first such one.
   */
  lemma FindForeignCharacter(store: UrlStore, code: string)
    ensures store.FindByCode(code).Err? && store.FindByCode(code).error.DecodeFailed?
        <==> exists i :: 0 <= i < |code| && code[i] !in BASE62
    ensures store.FindByCode(code).Err? && store.FindByCode(code).error.DecodeFailed? ==>
      exists i :: 0 <= i < |code| && code[i] !in BASE62 && store.FindByCode(code).error.c == code[i]
        && forall j :: 0 <= j < i ==> code[j] in BASE62
  {
    DecodedFailsExactly(code, BASE62);
  }

  /**
   * A failed lookup is a server error (500) exactly when the code holds a
   * character outside the alphabet, and otherwise a not-found (404) because
   * no record has the decoded id.
   */
  lemma FindByCodeStatus(store: UrlStore, code: string)
    ensures store.FindByCode(code).Err? ==>
      (StatusCode(store.FindByCode(code).error) == 500 <==> exists i :: 0 <= i < |code| && code[i] !in BASE62)
    ensures store.FindByCode(code).Err? ==>
      (StatusCode(store.FindByCode(code).error) == 404 <==>
         Decoded(code, BASE62).Ok? && Decoded(code, BASE62).value !in store.records)
  {
    DecodedFailsExactly(code, BASE62);
    match Decoded(code, BASE62)
    case Err(InvalidCharacter(c)) =>
      assert store.FindByCode(code) == Err(DecodeFailed(c));
    case Ok(id) =>
      assert store.FindByCode(code) == store.FindById(id);
  }

  /** Different ids have different short codes, so records never share a code. */
  lemma ShortCodesDistinct(i: nat, j: nat)
    requires i != j
    ensures ShortCode(i) != ShortCode(j)
  {
    Base62IsAlphabet();
    EncodeInjective(i, j, BASE62);
  }

  /** A code padded with leading `0` symbols reaches the same record as the code itself. */
  lemma PaddedCodeFindsSame(store: UrlStore, code: string)
    ensures store.FindByCode("0" + code) == store.FindByCode(code)
  {
    assert BASE62[0] == '0' && [BASE62[0]] == "0";
    DecodedLeadingZero(code, BASE62);
  }

  /** The URL create stores has no control characters but tab, line feed and carriage return, and no surrounding whitespace. */
  lemma SanitizedIsClean(url: string)
    ensures forall i :: 0 <= i < |Sanitized(url)| ==> IsKept(Sanitized(url)[i])
    ensures Sanitized(url) != [] ==> !IsSpace(Sanitized(url)[0]) && !IsSpace(Sanitized(url)[|Sanitized(url)| - 1])
  {
    var d := DropControl(Strip(url));
    var i := StripSlice(d);
    forall j | 0 <= j < |Sanitized(url)| ensures IsKept(Sanitized(url)[j]) {
      assert Sanitized(url)[j] == d[i + j];
    }
  }

  /** Cleaning a clean URL leaves it as it is. */
  lemma SanitizedKeepsClean(url: string)
    requires forall i :: 0 <= i < |url| ==> IsKept(url[i])
    requires url != [] ==> !IsSpace(url[0]) && !IsSpace(url[|url| - 1])
    ensures Sanitized(url) == url
  {
    StripTrimmed(url);
  }

  /** Cleaning is idempotent. */
  lemma SanitizedIdempotent(url: string)
    ensures Sanitized(Sanitized(url)) == Sanitized(url)
  {
    SanitizedIsClean(url);
    SanitizedKeepsClean(Sanitized(url));
  }

  /**
   * The update route validates the URL before the update logic sees it; the
   * logic then stores the validated value exactly as the validator returned it.
   */
  lemma UpdateStoresValidated(newUrl: string, v: string)
    requires Validators.ValidateUpdateUrl(Some(newUrl)) == Ok(v)
    ensures !Validators.IsBlank(Some(v)) && Strip(Validators.WithScheme(v)) == v
  {
    assert Validators.HasScheme(v) by {
      Validators.UpdateAcceptedHasScheme(Some(newUrl));
    }
    assert Strip(v) == v by {
      StripIdempotent(Validators.WithScheme(newUrl));
    }
    assert v != [];
  }

  /** The scenario of creating, resolving, reading, deleting and resolving again, then creating a second URL. */
  method Walkthrough() {
    var store := new UrlStore();
    var shortener := new UrlShortener(store, "https://example.com", 10);
    assert shortener.id == 1;
    EncodeOne();
    assert shortener.shortCode == "1";
    var lookup := new UrlLookup("1");
    FindShortCode(store, 1);
    var first := lookup.OriginalUrl(store, 11);
    assert first.Ok? && first.value.accessCount == 1;
    FindShortCode(store, 1);
    var second := lookup.OriginalUrl(store, 12);
    assert second.Ok? && second.value.accessCount == 2 && second.value.updatedAt == 12;
    FindShortCode(store, 1);
    var stats := lookup.UrlStats(store);
    assert stats == second;
    var deleted := DeleteUrlLogic(store, "1");
    assert deleted.Ok?;
    var gone := lookup.OriginalUrl(store, 13);
    assert gone == Err(NotFound);
    var other := new UrlShortener(store, "https://example.org", 14);
    assert other.id == 2;
    ShortCodesDistinct(1, 2);
    assert shortener.shortCode != other.shortCode;
  }
}
