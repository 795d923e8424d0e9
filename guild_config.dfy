/** The auto-role command: enable, disable and status over a per-guild
    record `{roleId}` in its own store. Role facts come from the platform as
    plain values. */
module AutoRole {
  import opened JsValues
  import opened Storage

  /** The role given to the enable action. */
  datatype RoleInfo = RoleInfo(id: string, position: int, managed: bool)

  datatype Reply =
    | MissingRole | EveryoneRole | RoleTooHigh | IntegrationRole | AlreadyConfigured | Enabled
    | NotConfigured | Disabled
    | StatusDisabled | StatusIssue | StatusEnabled
    | Failed

  /** `guild.roles.cache.get(v)` finds a role. */
  predicate RoleExists(v: JsValue, guildRoles: set<string>)
  {
    v.JStr? && v.s in guildRoles
  }

  /** The record stored for a guild. */
  function Config(roleId: string): JsValue
  {
    JObject(map["roleId" := JStr(roleId)])
  }

  /** The enable checks, in order, given the guild's current record. */
  function EnableReply(guildId: string, role: Option<RoleInfo>, botHighest: int, existing: JsValue, guildRoles: set<string>): (r: Reply)
    ensures r in {MissingRole, EveryoneRole, RoleTooHigh, IntegrationRole, AlreadyConfigured, Enabled}
  {
    if role.None? then MissingRole
    else if role.value.id == guildId then EveryoneRole
    else if role.value.position >= botHighest then RoleTooHigh
    else if role.value.managed then IntegrationRole
    else if Truthy(existing) && RoleExists(Field(existing, "roleId"), guildRoles) && Field(existing, "roleId") == JStr(role.value.id) then AlreadyConfigured
    else Enabled
  }

  /** A role is configured only if it is given, is not `@everyone`, sits
      below the bot's highest role and is not managed by an integration. */
  lemma EnabledOnlyAssignable(guildId: string, role: Option<RoleInfo>, botHighest: int, existing: JsValue, guildRoles: set<string>)
    ensures EnableReply(guildId, role, botHighest, existing, guildRoles) == Enabled <==>
              role.Some? && role.value.id != guildId && role.value.position < botHighest && !role.value.managed &&
              !(Truthy(existing) && Field(existing, "roleId") == JStr(role.value.id) && role.value.id in guildRoles)
  {
  }

  /** The status outcome for a guild's record. */
  function StatusReply(existing: JsValue, guildRoles: set<string>): (r: Reply)
    ensures r == StatusDisabled <==> !Truthy(existing)
    ensures r == StatusIssue <==> Truthy(existing) && !RoleExists(Field(existing, "roleId"), guildRoles)
    ensures r == StatusEnabled <==> Truthy(existing) && RoleExists(Field(existing, "roleId"), guildRoles)
  {
    if !Truthy(existing) then StatusDisabled
    else if !RoleExists(Field(existing, "roleId"), guildRoles) then StatusIssue
    else StatusEnabled
  }

  /** The enable action: the checks, then one write of `{roleId}` on success. */
  method Enable(db: Database, guildId: string, role: Option<RoleInfo>, botHighest: int, guildRoles: set<string>)
    returns (reply: Reply)
    modifies db
    ensures reply == Failed <==>
              role.Some? && role.value.id != guildId && role.value.position < botHighest && !role.value.managed &&
              (!LoadOk(old(db.initialized), old(db.disk), db.writable) ||
               (EnableReply(guildId, role, botHighest, Read(LoadedData(old(db.initialized), old(db.disk), old(db.data)), guildId), guildRoles) == Enabled && !db.writable))
    ensures reply != Failed ==> reply == EnableReply(guildId, role, botHighest, Read(LoadedData(old(db.initialized), old(db.disk), old(db.data)), guildId), guildRoles)
    ensures reply == Enabled ==>
              role.Some? && db.data == LoadedData(old(db.initialized), old(db.disk), old(db.data))[guildId := Config(role.value.id)] &&
              db.disk == Written(db.data) && db.initialized
    ensures reply == AlreadyConfigured ==>
              db.data == LoadedData(old(db.initialized), old(db.disk), old(db.data)) &&
              db.disk == LoadedDisk(old(db.initialized), old(db.disk), old(db.data), db.writable) && db.initialized
    ensures reply in {MissingRole, EveryoneRole, RoleTooHigh, IntegrationRole} || (reply == Failed && !LoadOk(old(db.initialized), old(db.disk), db.writable)) ==>
              db.data == old(db.data) && db.disk == old(db.disk) && db.initialized == old(db.initialized)
    ensures reply == Failed && LoadOk(old(db.initialized), old(db.disk), db.writable) ==>
              role.Some? && db.data == LoadedData(old(db.initialized), old(db.disk), old(db.data))[guildId := Config(role.value.id)] &&
              db.disk == LoadedDisk(old(db.initialized), old(db.disk), old(db.data), db.writable) && db.initialized
  {
    if role.None? {
      return MissingRole;
    }
    if role.value.id == guildId {
      return EveryoneRole;
    }
    if role.value.position >= botHighest {
      return RoleTooHigh;
    }
    if role.value.managed {
      return IntegrationRole;
    }
    var existing := db.Get(guildId);
    if existing.Threw? {
      return Failed;
    }
    reply := EnableReply(guildId, role, botHighest, existing.value, guildRoles);
    if reply == AlreadyConfigured {
      return;
    }
    var written := db.Set(guildId, Config(role.value.id));
    if written.Threw? {
      return Failed;
    }
  }

  /** The disable action: deletes the guild's record when there is one. */
  method Disable(db: Database, guildId: string) returns (reply: Reply)
    modifies db
    ensures reply in {NotConfigured, Disabled, Failed}
    ensures reply == Failed <==>
              (|| !LoadOk(old(db.initialized), old(db.disk), db.writable)
               || (Truthy(Read(LoadedData(old(db.initialized), old(db.disk), old(db.data)), guildId)) && !db.writable))
    ensures reply != Failed ==> (reply == NotConfigured <==> !Truthy(Read(LoadedData(old(db.initialized), old(db.disk), old(db.data)), guildId)))
    ensures reply == NotConfigured ==>
              db.data == LoadedData(old(db.initialized), old(db.disk), old(db.data)) &&
              db.disk == LoadedDisk(old(db.initialized), old(db.disk), old(db.data), db.writable) && db.initialized
    ensures reply == Disabled ==>
              db.data == LoadedData(old(db.initialized), old(db.disk), old(db.data)) - {guildId} &&
              db.disk == Written(db.data) && db.initialized
    ensures reply == Failed && !LoadOk(old(db.initialized), old(db.disk), db.writable) ==>
              db.data == old(db.data) &&
              db.disk == old(db.disk) && !db.initialized
    ensures reply == Failed && LoadOk(old(db.initialized), old(db.disk), db.writable) ==>
              db.data == LoadedData(old(db.initialized), old(db.disk), old(db.data)) - {guildId} &&
              db.disk == LoadedDisk(old(db.initialized), old(db.disk), old(db.data), db.writable) && db.initialized
  {
    var current := db.Get(guildId);
    if current.Threw? {
      return Failed;
    }
    if !Truthy(current.value) {
      return NotConfigured;
    }
    var deleted := db.Delete(guildId);
    if deleted.Threw? {
      return Failed;
    }
    reply := Disabled;
  }

  /** The status action: reads only. */
  method Status(db: Database, guildId: string, guildRoles: set<string>) returns (reply: Reply)
    modifies db
    ensures reply in {StatusDisabled, StatusIssue, StatusEnabled, Failed}
    ensures reply == Failed <==> !LoadOk(old(db.initialized), old(db.disk), db.writable)
    ensures reply != Failed ==> reply == StatusReply(Read(LoadedData(old(db.initialized), old(db.disk), old(db.data)), guildId), guildRoles)
    ensures db.data == LoadedData(old(db.initialized), old(db.disk), old(db.data)) &&
              db.disk == LoadedDisk(old(db.initialized), old(db.disk), old(db.data), db.writable) && db.initialized == LoadOk(old(db.initialized), old(db.disk), db.writable)
    ensures old(db.initialized) ==> db.data == old(db.data) && db.disk == old(db.disk)
  {
    var current := db.Get(guildId);
    if current.Threw? {
      return Failed;
    }
    reply := StatusReply(current.value, guildRoles);
  }

  /** After a successful enable, status reports the configured role as enabled. */
  lemma EnableThenStatus(roleId: string, guildRoles: set<string>)
    requires roleId in guildRoles
    ensures StatusReply(Config(roleId), guildRoles) == StatusEnabled
  {
  }
}

/** The welcome command: enable, disable and status over a per-guild record
    `{channelId}` in its own store. */
module WelcomeSetup {
  import opened JsValues
  import opened Storage

  /** The channel given to the enable action. */
  datatype ChannelInfo = ChannelInfo(id: string, textBased: bool)

  datatype Reply =
    | MissingChannel | InvalidChannel | AlreadyConfigured | DisableFirst | Enabled
    | NotConfigured | Disabled
    | StatusDisabled | StatusIssue | StatusEnabled
    | Failed

  /** `guild.channels.cache.get(v)` finds a channel. */
  predicate ChannelExists(v: JsValue, guildChannels: set<string>)
  {
    v.JStr? && v.s in guildChannels
  }

  function Config(channelId: string): JsValue
  {
    JObject(map["channelId" := JStr(channelId)])
  }

  /** A record that names a channel (`config && config.channelId`). */
  predicate Configured(existing: JsValue)
  {
    Truthy(existing) && Truthy(Field(existing, "channelId"))
  }

  /** The enable checks, in order, given the guild's current record. */
  function EnableReply(channel: Option<ChannelInfo>, existing: JsValue, guildChannels: set<string>): (r: Reply)
    ensures r in {MissingChannel, InvalidChannel, AlreadyConfigured, DisableFirst, Enabled}
  {
    if channel.None? then MissingChannel
    else if !channel.value.textBased then InvalidChannel
    else if Configured(existing) && ChannelExists(Field(existing, "channelId"), guildChannels) then
      (if Field(existing, "channelId") == JStr(channel.value.id) then AlreadyConfigured else DisableFirst)
    else Enabled
  }

  /** A channel is stored only if it is a text channel and no configured
      channel still exists: a stale configuration is overwritten. */
  lemma EnabledOnlyWhenFree(channel: Option<ChannelInfo>, existing: JsValue, guildChannels: set<string>)
    ensures EnableReply(channel, existing, guildChannels) == Enabled <==>
              channel.Some? && channel.value.textBased &&
              !(Configured(existing) && ChannelExists(Field(existing, "channelId"), guildChannels))
  {
  }

  /** The status outcome for a guild's record. */
  function StatusReply(existing: JsValue, guildChannels: set<string>): (r: Reply)
    ensures r == StatusDisabled <==> !Configured(existing)
    ensures r == StatusIssue <==> Configured(existing) && !ChannelExists(Field(existing, "channelId"), guildChannels)
    ensures r == StatusEnabled <==> Configured(existing) && ChannelExists(Field(existing, "channelId"), guildChannels)
  {
    if !Configured(existing) then StatusDisabled
    else if !ChannelExists(Field(existing, "channelId"), guildChannels) then StatusIssue
    else StatusEnabled
  }

  /** The enable action: the checks, then one write of `{channelId}` on success. */
  method Enable(db: Database, guildId: string, channel: Option<ChannelInfo>, guildChannels: set<string>)
    returns (reply: Reply)
    modifies db
    ensures reply == Failed <==>
              channel.Some? && channel.value.textBased &&
              (!LoadOk(old(db.initialized), old(db.disk), db.writable) ||
               (EnableReply(channel, Read(LoadedData(old(db.initialized), old(db.disk), old(db.data)), guildId), guildChannels) == Enabled && !db.writable))
    ensures reply != Failed ==> reply == EnableReply(channel, Read(LoadedData(old(db.initialized), old(db.disk), old(db.data)), guildId), guildChannels)
    ensures reply == Enabled ==>
              channel.Some? && db.data == LoadedData(old(db.initialized), old(db.disk), old(db.data))[guildId := Config(channel.value.id)] &&
              db.disk == Written(db.data) && db.initialized
    ensures reply == AlreadyConfigured || reply == DisableFirst ==>
              db.data == LoadedData(old(db.initialized), old(db.disk), old(db.data)) &&
              db.disk == LoadedDisk(old(db.initialized), old(db.disk), old(db.data), db.writable) && db.initialized
    ensures reply in {MissingChannel, InvalidChannel} || (reply == Failed && !LoadOk(old(db.initialized), old(db.disk), db.writable)) ==>
              db.data == old(db.data) && db.disk == old(db.disk) && db.initialized == old(db.initialized)
    ensures reply == Failed && LoadOk(old(db.initialized), old(db.disk), db.writable) ==>
              channel.Some? && db.data == LoadedData(old(db.initialized), old(db.disk), old(db.data))[guildId := Config(channel.value.id)] &&
              db.disk == LoadedDisk(old(db.initialized), old(db.disk), old(db.data), db.writable) && db.initialized
  {
    if channel.None? {
      return MissingChannel;
    }
    if !channel.value.textBased {
      return InvalidChannel;
    }
    var existing := db.Get(guildId);
    if existing.Threw? {
      return Failed;
    }
    reply := EnableReply(channel, existing.value, guildChannels);
    if reply != Enabled {
      return;
    }
    var written := db.Set(guildId, Config(channel.value.id));
    if written.Threw? {
      return Failed;
    }
  }

  /** The disable action: deletes the guild's record when it names a channel. */
  method Disable(db: Database, guildId: string) returns (reply: Reply)
    modifies db
    ensures reply in {NotConfigured, Disabled, Failed}
    ensures reply == Failed <==>
              (|| !LoadOk(old(db.initialized), old(db.disk), db.writable)
               || (Configured(Read(LoadedData(old(db.initialized), old(db.disk), old(db.data)), guildId)) && !db.writable))
    ensures reply != Failed ==> (reply == NotConfigured <==> !Configured(Read(LoadedData(old(db.initialized), old(db.disk), old(db.data)), guildId)))
    ensures reply == NotConfigured ==>
              db.data == LoadedData(old(db.initialized), old(db.disk), old(db.data)) &&
              db.disk == LoadedDisk(old(db.initialized), old(db.disk), old(db.data), db.writable) && db.initialized
    ensures reply == Disabled ==>
              db.data == LoadedData(old(db.initialized), old(db.disk), old(db.data)) - {guildId} &&
              db.disk == Written(db.data) && db.initialized
    ensures reply == Failed && !LoadOk(old(db.initialized), old(db.disk), db.writable) ==>
              db.data == old(db.data) &&
              db.disk == old(db.disk) && !db.initialized
    ensures reply == Failed && LoadOk(old(db.initialized), old(db.disk), db.writable) ==>
              db.data == LoadedData(old(db.initialized), old(db.disk), old(db.data)) - {guildId} &&
              db.disk == LoadedDisk(old(db.initialized), old(db.disk), old(db.data), db.writable) && db.initialized
  {
    var existing := db.Get(guildId);
    if existing.Threw? {
      return Failed;
    }
    if !Configured(existing.value) {
      return NotConfigured;
    }
    var deleted := db.Delete(guildId);
    if deleted.Threw? {
      return Failed;
    }
    reply := Disabled;
  }

  /** The status action: reads only. */
  method Status(db: Database, guildId: string, guildChannels: set<string>) returns (reply: Reply)
    modifies db
    ensures reply in {StatusDisabled, StatusIssue, StatusEnabled, Failed}
    ensures reply == Failed <==> !LoadOk(old(db.initialized), old(db.disk), db.writable)
    ensures reply != Failed ==> reply == StatusReply(Read(LoadedData(old(db.initialized), old(db.disk), old(db.data)), guildId), guildChannels)
    ensures db.data == LoadedData(old(db.initialized), old(db.disk), old(db.data)) &&
              db.disk == LoadedDisk(old(db.initialized), old(db.disk), old(db.data), db.writable) && db.initialized == LoadOk(old(db.initialized), old(db.disk), db.writable)
    ensures old(db.initialized) ==> db.data == old(db.data) && db.disk == old(db.disk)
  {
    var existing := db.Get(guildId);
    if existing.Threw? {
      return Failed;
    }
    reply := StatusReply(existing.value, guildChannels);
  }
}
