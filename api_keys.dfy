/**
 * The API key record of common/models.py: key generation and prefix derivation on first save,
 * the validity, IP allow-list and per-method permission checks, and the usage counter.
 *
 * Time is an integer `now` (seconds); users are opaque ids; the 64 random choices that
 * `secrets.choice` makes are passed in as a sequence of alphabet indices.
 */
module ApiKeys {
  import opened Wrappers
  import opened Text
  import opened Users

  const KeyLength: nat := 64
  const PrefixLength: nat := 8
  const AlphabetSize: nat := 62

  /** The i-th symbol of `string.ascii_letters + string.digits`: a-z, then A-Z, then 0-9. */
  function AlphabetChar(i: nat): char
    requires i < AlphabetSize
  {
    if i < 26 then ('a' as int + i) as char
    else if i < 52 then ('A' as int + (i - 26)) as char
    else ('0' as int + (i - 52)) as char
  }

  const Alphabet: string := seq(AlphabetSize, i requires 0 <= i < AlphabetSize => AlphabetChar(i))

  predicate IsKeyChar(c: char) {
    'a' <= c <= 'z' || 'A' <= c <= 'Z' || '0' <= c <= '9'
  }

  /** A well-formed API key: 64 symbols of the alphabet. */
  predicate IsKey(s: string) {
    |s| == KeyLength && forall i :: 0 <= i < |s| ==> IsKeyChar(s[i])
  }

  /** The random choices one call of `generate_key` makes: 64 indices into the alphabet. */
  predicate ValidDraws(draws: seq<nat>) {
    |draws| == KeyLength && forall i :: 0 <= i < |draws| ==> draws[i] < AlphabetSize
  }

  /** Each symbol of a key is the alphabet symbol at exactly one index. */
  lemma AlphabetIndexOf(c: char) returns (i: nat)
    requires IsKeyChar(c)
    ensures i < AlphabetSize && Alphabet[i] == c
    ensures forall j :: 0 <= j < AlphabetSize && Alphabet[j] == c ==> j == i
  {
    if 'a' <= c <= 'z' {
      i := c as int - 'a' as int;
    } else if 'A' <= c <= 'Z' {
      i := c as int - 'A' as int + 26;
    } else {
      i := c as int - '0' as int + 52;
    }
  }

  /** `generate_key`: one alphabet symbol per draw, 64 times. */
  method GenerateKey(draws: seq<nat>) returns (key: string)
    requires ValidDraws(draws)
    ensures IsKey(key)
    ensures forall i :: 0 <= i < KeyLength ==> key[i] == Alphabet[draws[i]]
  {
    key := [];
    for i := 0 to KeyLength
      invariant |key| == i
      invariant forall j :: 0 <= j < i ==> key[j] == Alphabet[draws[j]] && IsKeyChar(key[j])
    {
      key := key + [Alphabet[draws[i]]];
    }
  }

  /** Every well-formed key is the outcome of some choice of draws, so the generator covers them all. */
  lemma EveryKeyCanBeGenerated(key: string) returns (draws: seq<nat>)
    requires IsKey(key)
    ensures ValidDraws(draws)
    ensures forall i :: 0 <= i < KeyLength ==> Alphabet[draws[i]] == key[i]
  {
    draws := [];
    for i := 0 to KeyLength
      invariant |draws| == i
      invariant forall j :: 0 <= j < i ==> draws[j] < AlphabetSize && Alphabet[draws[j]] == key[j]
    {
      var d := AlphabetIndexOf(key[i]);
      draws := draws + [d];
    }
  }

  /** The entries of an allow-list text: the comma-separated fields, each stripped. */
  function AllowList(text: string): seq<string> {
    StripAll(Split(text, ','))
  }

  /** `[f.strip() for f in fields]`. */
  function StripAll(fields: seq<string>): (list: seq<string>)
    ensures |list| == |fields| && forall i :: 0 <= i < |fields| ==> list[i] == Strip(fields[i])
  {
    seq(|fields|, i requires 0 <= i < |fields| => Strip(fields[i]))
  }

  /** An address is on the list exactly when it is the stripped form of one of the fields. */
  lemma AllowListMember(text: string, x: string)
    ensures x in AllowList(text) <==>
      exists i :: 0 <= i < |Split(text, ',')| && x == Strip(Split(text, ',')[i])
  {
    var fields := Split(text, ',');
    StrippedMember(fields, StripAll(fields), x);
    if x in AllowList(text) {
      var i :| 0 <= i < |fields| && x == Strip(fields[i]);
      assert x == Strip(Split(text, ',')[i]);
    }
  }

  /** Every allow-list entry is free of commas and of surrounding whitespace. */
  lemma AllowListEntryShape(text: string, x: string)
    ensures x in AllowList(text) ==> ',' !in x && (x == [] || (!IsSpace(x[0]) && !IsSpace(x[|x| - 1])))
  {
    var fields := Split(text, ',');
    AllowListMember(text, x);
    if x in AllowList(text) {
      var j :| 0 <= j < |fields| && x == Strip(fields[j]);
      StrippedNoComma(fields[j]);
    }
  }

  lemma StrippedNoComma(field: string)
    requires ',' !in field
    ensures ',' !in Strip(field)
  {
    var i := StripIsSlice(field);
  }

  /** Membership in a list of stripped fields, for any fields and any list related that way. */
  lemma StrippedMember(fields: seq<string>, list: seq<string>, x: string)
    requires |list| == |fields| && forall i :: 0 <= i < |list| ==> list[i] == Strip(fields[i])
    ensures x in list <==> exists i :: 0 <= i < |fields| && x == Strip(fields[i])
  {
    if x in list {
      var i :| 0 <= i < |list| && list[i] == x;
      assert x == Strip(fields[i]);
    }
    if exists i :: 0 <= i < |fields| && x == Strip(fields[i]) {
      var i :| 0 <= i < |fields| && x == Strip(fields[i]);
      assert list[i] == x;
    }
  }

  /** One row of the `api_keys` table. */
  class APIKey {
    var name: string
    var key: string
    var prefix: string
    var user: UserId
    var isActive: bool
    var lastUsed: Option<int>
    var expiresAt: Option<int>
    var canRead: bool
    var canWrite: bool
    var canDelete: bool
    var allowedIps: string
    var requestCount: nat
    var maxRequestsPerHour: Option<nat>

    /** A new, unsaved record with the field defaults. */
    constructor (name: string, user: UserId)
      ensures this.name == name && this.user == user
      ensures key == "" && prefix == ""
      ensures isActive && canRead && !canWrite && !canDelete
      ensures requestCount == 0 && lastUsed == None && expiresAt == None
      ensures allowedIps == "" && maxRequestsPerHour == None
    {
      this.name := name;
      this.user := user;
      key, prefix := "", "";
      isActive, canRead, canWrite, canDelete := true, true, false, false;
      requestCount, lastUsed, expiresAt := 0, None, None;
      allowedIps, maxRequestsPerHour := "", None;
    }

    /**
     * `save`: a record without a key gets a freshly generated one and its 8-character prefix;
     * a record that has a key keeps both.
     */
    method Save(draws: seq<nat>)
      requires ValidDraws(draws)
      modifies this`key, this`prefix
      ensures old(key) == "" ==> IsKey(key) && prefix == key[..PrefixLength]
      ensures old(key) == "" ==> forall i :: 0 <= i < KeyLength ==> key[i] == Alphabet[draws[i]]
      ensures old(key) != "" ==> key == old(key) && prefix == old(prefix)
    {
      if key == "" {
        key := GenerateKey(draws);
        prefix := key[..PrefixLength];
      }
    }

    /** `is_valid`: active, and not past its expiry (expiring exactly now is still valid). */
    predicate IsValid(now: int)
      reads this
      ensures !isActive ==> !IsValid(now)
      ensures IsValid(now) <==> isActive && (expiresAt.None? || now <= expiresAt.value)
    {
      if !isActive then false
      else if expiresAt.Some? && expiresAt.value < now then false
      else true
    }

    /**
     * `is_ip_allowed`: any address (even none) when the list is blank; otherwise an address that
     * equals one of the stripped, comma-separated entries.
     */
    predicate IsIpAllowed(ip: Option<string>)
      reads this
      ensures allowedIps == "" ==> IsIpAllowed(ip)
      ensures allowedIps != "" && ip.None? ==> !IsIpAllowed(ip)
      ensures allowedIps != "" && IsIpAllowed(ip) ==>
        ',' !in ip.value && (ip.value == [] || (!IsSpace(ip.value[0]) && !IsSpace(ip.value[|ip.value| - 1])))
      ensures allowedIps != "" ==>
        (IsIpAllowed(ip) <==> ip.Some? && exists i :: 0 <= i < |Split(allowedIps, ',')| && ip.value == Strip(Split(allowedIps, ',')[i]))
    {
      if allowedIps == "" then true
      else if ip.None? then false
      else
        AllowListMember(allowedIps, ip.value);
        AllowListEntryShape(allowedIps, ip.value);
        ip.value in AllowList(allowedIps)
    }

    /**
     * `has_permission`: GET needs can_read; POST, PUT and PATCH need can_write; DELETE needs
     * can_delete; any other method name (lower-case ones included) is refused.
     */
    predicate HasPermission(action: string)
      reads this
      ensures action == "GET" ==> (HasPermission(action) <==> canRead)
      ensures action == "POST" || action == "PUT" || action == "PATCH" ==> (HasPermission(action) <==> canWrite)
      ensures action == "DELETE" ==> (HasPermission(action) <==> canDelete)
      ensures action !in {"GET", "POST", "PUT", "PATCH", "DELETE"} ==> !HasPermission(action)
    {
      var permissionMap := map["GET" := canRead, "POST" := canWrite, "PUT" := canWrite,
                               "PATCH" := canWrite, "DELETE" := canDelete];
      if action in permissionMap then permissionMap[action] else false
    }

    /** `increment_usage`: one more request, last used now; no other field changes. */
    method IncrementUsage(now: int)
      modifies this`requestCount, this`lastUsed
      ensures requestCount == old(requestCount) + 1
      ensures lastUsed == Some(now)
    {
      requestCount := requestCount + 1;
      lastUsed := Some(now);
    }
  }

  /**
   * An allow-list written as comma-joined entries, each without commas but possibly padded with
   * whitespace, admits exactly the entries with their padding stripped.
   */
  lemma AllowListOfEntries(k: APIKey, entries: seq<string>, ip: string)
    requires |entries| >= 1 && k.allowedIps == Join(entries, ',') && k.allowedIps != ""
    requires forall i :: 0 <= i < |entries| ==> ',' !in entries[i]
    ensures k.IsIpAllowed(Some(ip)) <==> exists i :: 0 <= i < |entries| && ip == Strip(entries[i])
  {
    SplitJoin(entries, ',');
    var list := AllowList(k.allowedIps);
    assert |list| == |entries|;
    assert forall i :: 0 <= i < |list| ==> list[i] == Strip(entries[i]);
    if ip in list {
      var i :| 0 <= i < |list| && list[i] == ip;
      assert ip == Strip(entries[i]);
    }
    if exists i :: 0 <= i < |entries| && ip == Strip(entries[i]) {
      var i :| 0 <= i < |entries| && ip == Strip(entries[i]);
      assert list[i] == ip;
    }
  }

  /**
   * An allow-list written with a space after the comma, such as `"10.0.0.1, 10.0.0.2"`, admits
   * both addresses; the space itself is never part of an allowed address.
   */
  lemma PaddedAllowList(k: APIKey, first: string, second: string)
    requires k.allowedIps == first + ", " + second
    requires |first| > 0 && |second| > 0 && ',' !in first && ',' !in second
    requires !IsSpace(first[0]) && !IsSpace(first[|first| - 1])
    requires !IsSpace(second[0]) && !IsSpace(second[|second| - 1])
    ensures k.IsIpAllowed(Some(first)) && k.IsIpAllowed(Some(second))
    ensures !k.IsIpAllowed(Some(" " + second))
  {
    var padded := " " + second;
    var entries := [first, padded];
    assert Join(entries, ',') == first + ", " + second by {
      assert Join(entries[1..], ',') == padded;
    }
    assert ',' !in padded;
    assert Strip(padded) == second by {
      assert padded[1..] == second;
      StripUnchanged(second);
    }
    StripUnchanged(first);
    AllowListOfEntries(k, entries, first);
    AllowListOfEntries(k, entries, second);
    assert Strip(entries[1]) == second;
    AllowListOfEntries(k, entries, padded);
    assert padded[0] == ' ';
  }
}
