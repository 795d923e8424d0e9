/** The anti-link and anti-tag settings: per guild, whether the protection is
    on, which roles are exempt and how many minutes an offender is timed out.
    The two command families are line-for-line twins; each is one
    `GuildSettingsStore`, differing only in the separator its role list is
    printed with. */
module RoleGate {
  import opened JsValues
  import opened OrderedMaps

  /** One guild's settings; `allowedRoles` is a JavaScript `Set`, kept here
      in insertion order without repetitions. */
  datatype GuildSettings = GuildSettings(enabled: bool, allowedRoles: seq<string>, timeout: int)

  /** One guild as written to the JSON file; a missing `timeout` is `None`. */
  datatype StoredRecord = StoredRecord(enabled: bool, allowedRoles: seq<string>, timeout: Option<int>)

  /** The data file: missing, or present with its text and what `JSON.parse`
      makes of it (`None` when it throws). */
  datatype DataFile = Missing | Present(content: string, parsed: Option<OMap<string, StoredRecord>>)

  /** What loading did besides filling the table. */
  datatype LoadOutcome = NoFile | BlankFile | LoadedEntries | BackedUp

  /** The separator of the anti-link role list: the bullet `•` as UTF-8 bytes
      read back as Windows-1252 (`â€¢`). */
  const AntilinkSeparator: string := "\n\U{00E2}\U{20AC}\U{00A2} "

  /** The separator of the anti-tag role list. */
  const AntitagSeparator: string := "\n\U{2022} "

  /** `new Set(array)`: the first occurrence of each element, in order. */
  function Dedup(s: seq<string>): (r: seq<string>)
    ensures NoDup(r)
    ensures forall x :: x in r <==> x in s
    ensures |r| <= |s|
  {
    if s == [] then []
    else
      var init := Dedup(s[..|s| - 1]);
      AddToSetFacts(init, s[|s| - 1]);
      LastSplit(s);
      AddToSet(init, s[|s| - 1])
  }

  /** An array without repetitions comes back from a `Set` unchanged. */
  lemma {:induction false} DedupNoDup(s: seq<string>)
    requires NoDup(s)
    ensures Dedup(s) == s
  {
    if s != [] {
      var init := s[..|s| - 1];
      InitNoDup(s);
      DedupNoDup(init);
      LastSplit(s);
    }
  }

  /** The settings built from one stored record (`timeout || 0`). */
  function FromRecord(r: StoredRecord): (s: GuildSettings)
    ensures NoDup(s.allowedRoles) && (forall x :: x in s.allowedRoles <==> x in r.allowedRoles)
    ensures s.enabled == r.enabled
    ensures s.timeout == if r.timeout.Some? then r.timeout.value else 0
  {
    GuildSettings(r.enabled, Dedup(r.allowedRoles), if r.timeout.Some? && r.timeout.value != 0 then r.timeout.value else 0)
  }

  /** The record written for one guild. */
  function ToRecord(s: GuildSettings): (r: StoredRecord)
    ensures r.enabled == s.enabled && r.allowedRoles == s.allowedRoles && r.timeout == Some(s.timeout)
  {
    StoredRecord(s.enabled, s.allowedRoles, Some(s.timeout))
  }

  /** Saving a guild and loading it back gives the same settings. */
  lemma RecordRoundTrip(s: GuildSettings)
    requires NoDup(s.allowedRoles)
    ensures FromRecord(ToRecord(s)) == s
  {
    DedupNoDup(s.allowedRoles);
  }

  /** Every guild's role list is free of repetitions. */
  ghost predicate WellFormed(guilds: OMap<string, GuildSettings>)
  {
    guilds.Valid() && forall g :: g in guilds.table ==> NoDup(guilds.table[g].allowedRoles)
  }

  /** The settings each stored record loads as. */
  function Converted(data: map<string, StoredRecord>): (r: map<string, GuildSettings>)
    ensures forall g :: g in r <==> g in data
    ensures forall g :: g in r ==> r[g] == FromRecord(data[g])
  {
    map g | g in data :: FromRecord(data[g])
  }

  /** The table after the stored guilds `keys` are set in order. */
  function LoadEntries(m: OMap<string, GuildSettings>, keys: seq<string>, data: map<string, StoredRecord>): (r: OMap<string, GuildSettings>)
    requires WellFormed(m)
    requires forall k :: k in keys ==> k in data
    ensures WellFormed(r)
  {
    var r := PutAll(m, keys, Converted(data));
    forall g | g in r.table
      ensures NoDup(r.table[g].allowedRoles)
    {
      PutAllValue(m, keys, Converted(data), g);
    }
    r
  }

  /** Loading one more stored guild puts its converted settings last. */
  lemma LoadStep(m: OMap<string, GuildSettings>, data: OMap<string, StoredRecord>, i: nat)
    requires WellFormed(m) && data.Valid() && i < |data.keys|
    ensures LoadEntries(m, data.keys[..i + 1], data.table) ==
              LoadEntries(m, data.keys[..i], data.table).Put(data.keys[i], FromRecord(data.table[data.keys[i]]))
  {
    PutAllExtend(m, data.keys, Converted(data.table), i);
  }

  /** The object `saveAntilinkData` writes: every guild in table order. */
  function Serialize(guilds: OMap<string, GuildSettings>): (r: OMap<string, StoredRecord>)
    requires guilds.Valid()
    ensures r.Valid() && r.keys == guilds.keys
    ensures forall g :: g in r.table <==> g in guilds.table
    ensures forall g :: g in r.table ==> r.table[g] == ToRecord(guilds.table[g])
  {
    OMap(guilds.keys, map g | g in guilds.table :: ToRecord(guilds.table[g]))
  }

  /** The records of the first `i` guilds, as the save loop has them. */
  function RecordsUpTo(guilds: OMap<string, GuildSettings>, i: int): map<string, StoredRecord>
    requires guilds.Valid() && 0 <= i <= |guilds.keys|
  {
    map g | g in guilds.keys[..i] :: ToRecord(guilds.table[g])
  }

  /** One more guild written by the save loop. */
  lemma SerializeStep(guilds: OMap<string, GuildSettings>, i: int)
    requires guilds.Valid() && 0 <= i < |guilds.keys|
    ensures guilds.keys[..i + 1] == guilds.keys[..i] + [guilds.keys[i]]
    ensures RecordsUpTo(guilds, i + 1) ==
              RecordsUpTo(guilds, i)[guilds.keys[i] := ToRecord(guilds.table[guilds.keys[i]])]
  {
    PrefixSnoc(guilds.keys, i);
  }

  /** The save loop, finished, has written the serialized table. */
  lemma SerializeAll(guilds: OMap<string, GuildSettings>)
    requires guilds.Valid()
    ensures guilds.keys[..|guilds.keys|] == guilds.keys
    ensures RecordsUpTo(guilds, |guilds.keys|) == Serialize(guilds).table
  {
    WholePrefix(guilds.keys);
  }

  /** Saving then loading into a fresh process reproduces the table. */
  lemma SaveLoadRoundTrip(guilds: OMap<string, GuildSettings>)
    requires WellFormed(guilds)
    ensures LoadEntries(EmptyMap(), Serialize(guilds).keys, Serialize(guilds).table) == guilds
  {
    var data := Serialize(guilds).table;
    forall g | g in guilds.table
      ensures Converted(data)[g] == guilds.table[g]
    {
      RecordRoundTrip(guilds.table[g]);
    }
    assert Converted(data) == guilds.table;
    PutAllRoundTrip(guilds);
  }

  /** `!content || content.trim() === ''`. */
  predicate Blank(content: string)
  {
    forall i :: 0 <= i < |content| ==> IsJsWhitespace(content[i])
  }

  /** `<@&id>` for each role, in set order, joined by `separator`. */
  function FormatRolesList(roles: seq<string>, separator: string): (r: string)
    ensures roles == [] ==> r == ""
    ensures |roles| == 1 ==> r == "<@&" + roles[0] + ">"
  {
    Join(Mentions(roles), separator)
  }

  function Mentions(roles: seq<string>): (r: seq<string>)
    ensures |r| == |roles|
    ensures forall i :: 0 <= i < |roles| ==> r[i] == "<@&" + roles[i] + ">"
  {
    seq(|roles|, i requires 0 <= i < |roles| => "<@&" + roles[i] + ">")
  }

  /** Listing one more role appends the separator and its mention. */
  lemma FormatRolesListSnoc(roles: seq<string>, role: string, separator: string)
    requires roles != []
    ensures FormatRolesList(roles + [role], separator) == FormatRolesList(roles, separator) + separator + "<@&" + role + ">"
  {
    assert Mentions(roles + [role]) == Mentions(roles) + ["<@&" + role + ">"];
    JoinSnoc(Mentions(roles), "<@&" + role + ">", separator);
  }

  /** `isAllowedToPostLinks` / `isAllowedToUseRestrictedTags`: everyone is
      allowed unless the protection is on, and then only holders of an allowed role. */
  predicate IsAllowed(settings: Option<GuildSettings>, memberRoles: set<string>)
  {
    settings.None? || !settings.value.enabled ||
    exists i :: 0 <= i < |settings.value.allowedRoles| && settings.value.allowedRoles[i] in memberRoles
  }

  /** Outcomes of the role commands. */
  datatype RoleOutcome = NotEnabled | AlreadyAllowed | NotAllowed | LastRole | Done

  class GuildSettingsStore {
    var guilds: OMap<string, GuildSettings>
    /** The object last written to the data file, if any. */
    var saved: Option<OMap<string, StoredRecord>>
    const separator: string

    ghost predicate Valid()
      reads this
    {
      WellFormed(guilds)
    }

    constructor (separator: string)
      ensures Valid() && guilds == EmptyMap() && saved.None? && this.separator == separator
    {
      guilds := EmptyMap();
      saved := None;
      this.separator := separator;
    }

    /** The settings the message handler consults. */
    function Lookup(guildId: string): (r: Option<GuildSettings>)
      reads this
      ensures r.Some? <==> guildId in guilds.table
      ensures r.Some? ==> r.value == guilds.table[guildId]
    {
      if guildId in guilds.table then Some(guilds.table[guildId]) else None
    }

    /** `loadAntilinkData`: a missing, blank or unparsable file loads nothing
        (an unparsable one is backed up); otherwise every stored guild is set,
        in file order. */
    method Load(file: DataFile) returns (outcome: LoadOutcome)
      requires Valid()
      requires file.Present? && file.parsed.Some? ==> file.parsed.value.Valid()
      modifies this
      ensures Valid() && saved == old(saved)
      ensures file.Missing? ==> outcome == NoFile && guilds == old(guilds)
      ensures file.Present? && Blank(file.content) ==> outcome == BlankFile && guilds == old(guilds)
      ensures file.Present? && !Blank(file.content) && file.parsed.None? ==> outcome == BackedUp && guilds == old(guilds)
      ensures file.Present? && !Blank(file.content) && file.parsed.Some? ==>
                outcome == LoadedEntries &&
                guilds == LoadEntries(old(guilds), file.parsed.value.keys, file.parsed.value.table)
    {
      if file.Missing? {
        return NoFile;
      }
      if Blank(file.content) {
        return BlankFile;
      }
      if file.parsed.None? {
        // a non-blank file is never empty, so the corrupt text is always backed up
        return BackedUp;
      }
      var data := file.parsed.value;
      var i := 0;
      while i < |data.keys|
        invariant 0 <= i <= |data.keys|
        invariant saved == old(saved)
        invariant WellFormed(guilds)
        invariant guilds == LoadEntries(old(guilds), data.keys[..i], data.table)
      {
        LoadStep(old(guilds), data, i);
        var guildId := data.keys[i];
        guilds := guilds.Put(guildId, FromRecord(data.table[guildId]));
        i := i + 1;
      }
      WholePrefix(data.keys);
      outcome := LoadedEntries;
    }

    /** `saveAntilinkData`: every guild written in table order. */
    method Save()
      requires Valid()
      modifies this
      ensures Valid() && guilds == old(guilds)
      ensures saved == Some(Serialize(guilds))
    {
      var keys: seq<string> := [];
      var data: map<string, StoredRecord> := map[];
      for i := 0 to |guilds.keys|
        invariant Valid() && guilds == old(guilds)
        invariant keys == guilds.keys[..i] && data == RecordsUpTo(guilds, i)
      {
        var guildId := guilds.keys[i];
        SerializeStep(guilds, i);
        keys := keys + [guildId];
        data := data[guildId := ToRecord(guilds.table[guildId])];
      }
      SerializeAll(guilds);
      saved := Some(OMap(keys, data));
    }

    /** The enable command: protection on, the given role added to any roles
        already allowed, the timeout set to the given minutes (`|| 0`), then saved. */
    method Enable(guildId: string, roleId: string, timeout: Option<int>)
      requires Valid()
      modifies this
      ensures Valid()
      ensures var previous := if guildId in old(guilds).table then old(guilds).table[guildId].allowedRoles else [];
              var minutes := if timeout.Some? then timeout.value else 0;
              guilds == old(guilds).Put(guildId, GuildSettings(true, AddToSet(previous, roleId), minutes))
      ensures saved == Some(Serialize(guilds))
    {
      var existingRoles: seq<string> := [];
      if guildId in guilds.table {
        var existing := guilds.table[guildId];
        if |existing.allowedRoles| > 0 {
          existingRoles := existing.allowedRoles;
        }
      }
      AddToSetFacts(existingRoles, roleId);
      existingRoles := AddToSet(existingRoles, roleId);
      var minutes := if timeout.Some? && timeout.value != 0 then timeout.value else 0;
      guilds := guilds.Put(guildId, GuildSettings(true, existingRoles, minutes));
      Save();
    }

    /** The add-role command. */
    method AddRole(guildId: string, roleId: string) returns (outcome: RoleOutcome)
      requires Valid()
      modifies this
      ensures Valid()
      ensures outcome == NotEnabled <==> guildId !in old(guilds).table || !old(guilds).table[guildId].enabled
      ensures outcome == AlreadyAllowed <==>
                guildId in old(guilds).table && old(guilds).table[guildId].enabled &&
                roleId in old(guilds).table[guildId].allowedRoles
      ensures outcome != Done ==> guilds == old(guilds) && saved == old(saved)
      ensures outcome == Done ==>
                var s := old(guilds).table[guildId];
                guilds == old(guilds).Put(guildId, s.(allowedRoles := s.allowedRoles + [roleId])) &&
                saved == Some(Serialize(guilds))
      ensures outcome in {NotEnabled, AlreadyAllowed, Done}
    {
      if guildId !in guilds.table || !guilds.table[guildId].enabled {
        return NotEnabled;
      }
      var settings := guilds.table[guildId];
      if roleId in settings.allowedRoles {
        return AlreadyAllowed;
      }
      guilds := guilds.Put(guildId, settings.(allowedRoles := settings.allowedRoles + [roleId]));
      Save();
      outcome := Done;
    }

    /** The remove-role command; it never removes the last allowed role. */
    method RemoveRole(guildId: string, roleId: string) returns (outcome: RoleOutcome)
      requires Valid()
      modifies this
      ensures Valid()
      ensures outcome == NotEnabled <==> guildId !in old(guilds).table || !old(guilds).table[guildId].enabled
      ensures outcome == NotAllowed <==>
                guildId in old(guilds).table && old(guilds).table[guildId].enabled &&
                roleId !in old(guilds).table[guildId].allowedRoles
      ensures outcome == LastRole <==>
                guildId in old(guilds).table && old(guilds).table[guildId].enabled &&
                roleId in old(guilds).table[guildId].allowedRoles && |old(guilds).table[guildId].allowedRoles| == 1
      ensures outcome != Done ==> guilds == old(guilds) && saved == old(saved)
      ensures outcome == Done ==>
                var s := old(guilds).table[guildId];
                guilds == old(guilds).Put(guildId, s.(allowedRoles := Keep(s.allowedRoles, {roleId}))) &&
                saved == Some(Serialize(guilds))
      ensures outcome in {NotEnabled, NotAllowed, LastRole, Done}
    {
      if guildId !in guilds.table || !guilds.table[guildId].enabled {
        return NotEnabled;
      }
      var settings := guilds.table[guildId];
      if roleId !in settings.allowedRoles {
        return NotAllowed;
      }
      if |settings.allowedRoles| == 1 {
        return LastRole;
      }
      KeepNoDup(settings.allowedRoles, {roleId});
      guilds := guilds.Put(guildId, settings.(allowedRoles := Keep(settings.allowedRoles, {roleId})));
      Save();
      outcome := Done;
    }

    /** The disable command: protection off, roles and timeout kept for later. */
    method Disable(guildId: string) returns (outcome: RoleOutcome)
      requires Valid()
      modifies this
      ensures Valid()
      ensures outcome == NotEnabled <==> guildId !in old(guilds).table || !old(guilds).table[guildId].enabled
      ensures outcome != Done ==> guilds == old(guilds) && saved == old(saved)
      ensures outcome == Done ==>
                guilds == old(guilds).Put(guildId, old(guilds).table[guildId].(enabled := false)) &&
                saved == Some(Serialize(guilds))
      ensures outcome in {NotEnabled, Done}
    {
      if guildId !in guilds.table || !guilds.table[guildId].enabled {
        return NotEnabled;
      }
      var settings := guilds.table[guildId];
      guilds := guilds.Put(guildId, settings.(enabled := false));
      Save();
      outcome := Done;
    }
  }

  // ---------------------------------------------------------------------------
  // What the commands guarantee about who may post

  /** After enable, holders of the given role are exempt, and so is every role
      exempt before; the role list is never empty. */
  lemma EnableAllows(previous: seq<string>, roleId: string, minutes: int, memberRoles: set<string>)
    requires NoDup(previous)
    ensures var s := GuildSettings(true, AddToSet(previous, roleId), minutes);
            && |s.allowedRoles| >= 1
            && (roleId in memberRoles ==> IsAllowed(Some(s), memberRoles))
            && (forall r :: r in previous ==> r in s.allowedRoles)
  {
    AddToSetFacts(previous, roleId);
    var roles := AddToSet(previous, roleId);
    if roleId in memberRoles {
      var i :| 0 <= i < |roles| && roles[i] == roleId;
    }
  }

  /** While protection is on, a member holding no allowed role is refused. */
  lemma EnabledRefusesOthers(s: GuildSettings, memberRoles: set<string>)
    requires s.enabled
    requires forall r :: r in s.allowedRoles ==> r !in memberRoles
    ensures !IsAllowed(Some(s), memberRoles)
  {
  }

  /** A successful role removal leaves at least one allowed role, and the
      removed role no longer exempts anyone. */
  lemma {:induction false} RemoveKeepsOne(roles: seq<string>, roleId: string)
    requires NoDup(roles) && roleId in roles && |roles| != 1
    ensures |Keep(roles, {roleId})| >= 1
    ensures roleId !in Keep(roles, {roleId})
    ensures forall r :: r in roles && r != roleId ==> r in Keep(roles, {roleId})
  {
    KeepOneLength(roles, roleId);
  }

  /** A disabled guild lets everyone through. */
  lemma DisabledAllowsAll(s: GuildSettings, memberRoles: set<string>)
    ensures IsAllowed(Some(s.(enabled := false)), memberRoles)
  {
  }
}
