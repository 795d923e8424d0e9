/** The dispatch rules of `CommandHandler`: the server-wide and per-user
    cooldowns in front of every slash command, the cache key built from an
    interaction's options, the gates in front of a cache lookup and a cache
    write, and the per-command time to live. */
module Dispatch {
  import opened JsValues
  import opened CacheStore
  import opened CommandCache

  // ---------------------------------------------------------------------------
  // Tables

  /** Per-user cooldowns (seconds) of the spam-prone commands. */
  const SpamProneCommands: map<string, int> := map[
    "advice" := 10, "cat" := 15, "dog" := 15, "rps" := 8, "calculator" := 10, "hex" := 8,
    "purge" := 20, "ban" := 10, "kick" := 10, "timeout" := 10, "warn" := 10]

  /** Server-wide cooldowns (seconds). */
  const ServerWideCommands: map<string, int> := map["purge" := 8, "ban" := 5, "kick" := 5]

  /** The commands whose replies may be cached. */
  const CacheableCommands: seq<string> := ["hex", "cat", "dog", "lofi", "help", "serverinfo", "whois"]

  /** The option names that enter a cache key, in the order they are appended. */
  const OptionKeys: seq<string> := ["color", "breed", "action", "user", "query", "category"]

  // ---------------------------------------------------------------------------
  // Interactions

  /** The value of one slash-command option, by its declared type. */
  datatype OptionValue =
    | OString(s: string)
    | ONumber(n: int)
    | OInteger(i: int)
    | OBoolean(b: bool)
    | OUser(id: string)
    | OOther

  /** What a slash-command invocation carries. */
  datatype Interaction = Interaction(
    commandName: string,
    userId: string,
    guildId: Option<string>,
    subcommand: Option<string>,
    options: map<string, OptionValue>)

  /** A command module's declared settings: `cooldown` and `neverCache`. */
  datatype CommandInfo = CommandInfo(cooldown: Option<int>, neverCache: JsValue)

  datatype OptionKind = KString | KNumber | KInteger | KBoolean | KUser

  /** A typed option getter's outcome: `null` for a missing option, the value
      when the option has the requested type, a thrown type error otherwise. */
  datatype Got = Null | Value(v: OptionValue) | Throws

  function KindOf(v: OptionValue): Option<OptionKind>
  {
    match v
    case OString(_) => Some(KString)
    case ONumber(_) => Some(KNumber)
    case OInteger(_) => Some(KInteger)
    case OBoolean(_) => Some(KBoolean)
    case OUser(_) => Some(KUser)
    case OOther => None
  }

  /** `options.getString(name, false)` and its siblings. */
  function TypedGet(options: map<string, OptionValue>, name: string, kind: OptionKind): (r: Got)
    ensures name !in options ==> r == Null
    ensures name in options ==> (r.Value? <==> KindOf(options[name]) == Some(kind))
    ensures r.Value? ==> r.v == options[name]
  {
    if name !in options then Null
    else if KindOf(options[name]) == Some(kind) then Value(options[name])
    else Throws
  }

  /** Template-literal rendering of an option value. */
  function Render(v: OptionValue): string
  {
    match v
    case OString(s) => s
    case ONumber(n) => IntToString(n)
    case OInteger(i) => IntToString(i)
    case OBoolean(b) => if b then "true" else "false"
    case OUser(id) => id
    case OOther => ""
  }

  /** One pass of the option loop: the getters are tried in the order string,
      number, integer, boolean, then (for `user`) user; a getter that throws
      ends the pass through the surrounding catch. */
  function Probe(options: map<string, OptionValue>, name: string): Option<string>
  {
    match TypedGet(options, name, KString)
    case Throws => None
    case Value(v) => Some(":" + name + "=" + Render(v))
    case Null =>
      match TypedGet(options, name, KNumber)
      case Throws => None
      case Value(v) => Some(":" + name + "=" + Render(v))
      case Null =>
        match TypedGet(options, name, KInteger)
        case Throws => None
        case Value(v) => Some(":" + name + "=" + Render(v))
        case Null =>
          match TypedGet(options, name, KBoolean)
          case Throws => None
          case Value(v) => Some(":" + name + "=" + Render(v))
          case Null =>
            if name == "user" then
              match TypedGet(options, name, KUser)
              case Value(v) => if v.OUser? && v.id != "" then Some(":" + name + "=" + v.id) else None
              case _ => None
            else None
  }

  /** The string value of option `name`, if it has one. */
  function StringOption(options: map<string, OptionValue>, name: string): Option<string>
  {
    if name in options && options[name].OString? then Some(options[name].s) else None
  }

  /** Since a typed getter throws on any other type, only string options ever
      reach the key: the number, integer, boolean and user branches are dead. */
  lemma ProbeOnlyStrings(options: map<string, OptionValue>, name: string)
    ensures Probe(options, name).Some? <==> StringOption(options, name).Some?
    ensures StringOption(options, name).Some? ==>
              Probe(options, name) == Some(":" + name + "=" + StringOption(options, name).value)
  {
  }

  /** What the option loop appends for one name: the probed fragment, or nothing. */
  function Piece(options: map<string, OptionValue>, name: string): string
  {
    var p := Probe(options, name);
    if p.Some? then p.value else ""
  }

  /** The fragments the option loop appends for `names`. */
  function Fragments(names: seq<string>, options: map<string, OptionValue>): string
  {
    if names == [] then ""
    else Fragments(names[..|names| - 1], options) + Piece(options, names[|names| - 1])
  }

  /** The option loop's fragments after one more name. */
  lemma FragmentsExtend(names: seq<string>, i: nat, options: map<string, OptionValue>)
    requires i < |names|
    ensures Fragments(names[..i + 1], options) == Fragments(names[..i], options) + Piece(options, names[i])
  {
    PrefixSnoc(names, i);
  }

  /** `base`, then `:<subcommand>` when there is a (non-empty) subcommand. */
  function KeyHead(subcommand: Option<string>): (r: string)
    ensures StartsWith(r, "base")
  {
    if subcommand.Some? && subcommand.value != "" then "base:" + subcommand.value else "base"
  }

  /** What `buildCacheKey(interaction)` returns. */
  function CacheKey(inter: Interaction): string
  {
    KeyHead(inter.subcommand) + Fragments(OptionKeys, inter.options)
  }

  /** `buildCacheKey(interaction)`: a loop over the allow-listed option names. */
  method BuildCacheKey(inter: Interaction) returns (key: string)
    ensures key == CacheKey(inter)
    ensures StartsWith(key, "base")
  {
    key := "base";
    if inter.subcommand.Some? && inter.subcommand.value != "" {
      key := key + ":" + inter.subcommand.value;
    }
    for i := 0 to |OptionKeys|
      invariant key == KeyHead(inter.subcommand) + Fragments(OptionKeys[..i], inter.options)
    {
      FragmentsExtend(OptionKeys, i, inter.options);
      ghost var head := key;
      var fragment := Probe(inter.options, OptionKeys[i]);
      if fragment.Some? {
        key := key + fragment.value;
      }
      assert key == head + Piece(inter.options, OptionKeys[i]);
      AppendAssoc(KeyHead(inter.subcommand), Fragments(OptionKeys[..i], inter.options), Piece(inter.options, OptionKeys[i]));
    }
    assert OptionKeys[..|OptionKeys|] == OptionKeys;
    assert StartsWith(KeyHead(inter.subcommand), "base");
  }

  /** Fragments depend only on the string options among the names scanned. */
  lemma {:induction false} FragmentsByStrings(names: seq<string>, o1: map<string, OptionValue>, o2: map<string, OptionValue>)
    requires forall i :: 0 <= i < |names| ==> StringOption(o1, names[i]) == StringOption(o2, names[i])
    ensures Fragments(names, o1) == Fragments(names, o2)
  {
    if names != [] {
      var last := names[|names| - 1];
      ProbeOnlyStrings(o1, last);
      ProbeOnlyStrings(o2, last);
      FragmentsByStrings(names[..|names| - 1], o1, o2);
    }
  }

  /** The key sees nothing but the subcommand and the string values of the
      allow-listed options. */
  lemma KeyIgnoresOtherOptions(i1: Interaction, i2: Interaction)
    requires i1.subcommand == i2.subcommand
    requires forall n :: n in OptionKeys ==> StringOption(i1.options, n) == StringOption(i2.options, n)
    ensures CacheKey(i1) == CacheKey(i2)
  {
    FragmentsByStrings(OptionKeys, i1.options, i2.options);
  }

  /** Every `hex` invocation (its only option is `code`) gets the key `base`. */
  lemma HexKeyIsBase(inter: Interaction)
    requires inter.subcommand.None?
    requires forall n :: n in inter.options ==> n == "code"
    ensures CacheKey(inter) == "base"
  {
    var empty := inter.(options := map[]);
    KeyIgnoresOtherOptions(inter, empty);
    FragmentsByStrings(OptionKeys, map[], map[]);
    NoFragments(OptionKeys);
  }

  lemma {:induction false} NoFragments(names: seq<string>)
    ensures Fragments(names, map[]) == ""
  {
    if names != [] {
      NoFragments(names[..|names| - 1]);
    }
  }

  // ---------------------------------------------------------------------------
  // Gates and time to live

  /** `getEphemeralFlag(content)`: the text mentions `error`, `Error` or ❌. */
  predicate GetEphemeralFlag(content: string)
  {
    Contains(content, "error") || Contains(content, "Error") || Contains(content, "\U{274C}")
  }

  /** `options.content && (...)` in the reply overrides: `Some(isError)`, or
      `None` when a truthy non-string content makes `includes` throw. */
  function LooksLikeError(content: JsValue): (r: Option<bool>)
    ensures !Truthy(content) ==> r == Some(false)
    ensures content.JStr? ==> r == Some(GetEphemeralFlag(content.s))
    ensures r.None? <==> Truthy(content) && !content.JStr?
  {
    if !Truthy(content) then Some(false)
    else if content.JStr? then Some(GetEphemeralFlag(content.s))
    else None
  }

  /** The lookup gate of `tryGetFromCache`. */
  predicate LookupAllowed(commandName: string, command: CommandInfo, inter: Interaction)
  {
    commandName in CacheableCommands && command.neverCache != JBool(true) && inter.subcommand.None?
  }

  /** The write gate of the `reply`/`editReply` overrides: a reply object
      (reading `content` of null throws) whose content does not look like an
      error, for a cacheable command whose `neverCache` is falsy. */
  predicate WriteAllowed(commandName: string, command: CommandInfo, replyOptions: JsValue)
  {
    && commandName in CacheableCommands
    && !Truthy(command.neverCache)
    && replyOptions != JUndefined
    && LooksLikeError(Field(replyOptions, "content")) == Some(false)
  }

  /** The two gates test `neverCache` differently: a truthy value other than
      `true` allows lookups and forbids writes. */
  lemma NeverCacheGatesDisagree(inter: Interaction, replyOptions: JsValue)
    requires inter.commandName == "help" && inter.subcommand.None?
    ensures LookupAllowed("help", CommandInfo(None, JNum(1)), inter)
    ensures !WriteAllowed("help", CommandInfo(None, JNum(1)), replyOptions)
  {
  }

  /** A reply object whose content mentions an error is never cached; a bare
      string reply has no `content`, so it passes the filter even when it is
      an error message, and is replayed as ephemeral. */
  lemma ErrorRepliesNotCached(commandName: string, command: CommandInfo, fields: map<string, JsValue>, text: string)
    requires "content" in fields && fields["content"] == JStr(text) && GetEphemeralFlag(text)
    ensures !WriteAllowed(commandName, command, JObject(fields))
    ensures commandName in CacheableCommands && !Truthy(command.neverCache) ==>
              WriteAllowed(commandName, command, JStr(text))
  {
  }

  /** `getTtlForCommand(commandName)`, in milliseconds. */
  function TtlForCommand(commandName: string): (r: int)
    ensures 30 * 60 * 1000 <= r <= 7 * 24 * 60 * 60 * 1000
    ensures commandName !in CacheableCommands ==> r == 60 * 60 * 1000
  {
    match commandName
    case "hex" => 7 * 24 * 60 * 60 * 1000
    case "help" => 24 * 60 * 60 * 1000
    case "serverinfo" => 30 * 60 * 1000
    case "whois" => 60 * 60 * 1000
    case "cat" => 3 * 60 * 60 * 1000
    case "dog" => 3 * 60 * 60 * 1000
    case "lofi" => 60 * 60 * 1000
    case _ => 60 * 60 * 1000
  }

  /** A TTL is never zero, so the store never substitutes its own default. */
  lemma TtlOverridesStoreDefault(commandName: string, storeTtl: int)
    ensures OrDefault(Some(TtlForCommand(commandName)), storeTtl) == TtlForCommand(commandName)
  {
  }

  // ---------------------------------------------------------------------------
  // The whois cache key

  /** The key `tryGetFromCache` looks up: the built key, plus `:<user id>`
      for `whois`, whose replies are per user. The write path does not add
      the suffix. */
  function CacheKeyFor(inter: Interaction): (r: string)
    ensures StartsWith(r, "base")
    ensures inter.commandName != "whois" ==> r == CacheKey(inter)
    ensures inter.commandName == "whois" ==> |r| > |CacheKey(inter)|
  {
    CacheKey(inter) + (if inter.commandName == "whois" then ":" + inter.userId else "")
  }

  /** As written, the write path stores `whois` replies under the bare key, so
      a `whois` lookup never meets a `whois` write: for `whois` invocations with
      no allow-listed string option (its option is `target`), the lookup key is
      longer than `base`, which is every write key. */
  lemma WhoisLookupNeverMatchesWrite(lookup: Interaction, write: Interaction)
    requires lookup.commandName == "whois" && write.commandName == "whois"
    requires lookup.subcommand.None? && write.subcommand.None?
    requires forall n :: n in OptionKeys ==> StringOption(write.options, n).None?
    ensures CacheKey(write) == "base"
    ensures CacheKeyFor(lookup) != CacheKey(write)
  {
    var bare := write.(options := map[]);
    KeyIgnoresOtherOptions(write, bare);
    NoFragments(OptionKeys);
    assert |CacheKeyFor(lookup)| > |"base"|;
  }

  /** What a `whois` write as written does to a later `whois` lookup: the
      write adds nothing the lookup can find, so the lookup hits afterwards
      only on an entry it would have hit before the write. */
  lemma WhoisReplyNeverServed(m: Table, lookup: Interaction, write: Interaction, value: JsValue, maxSize: int, now: int, later: int)
    requires m.Valid()
    requires lookup.commandName == "whois" && write.commandName == "whois"
    requires lookup.subcommand.None? && write.subcommand.None?
    requires forall n :: n in OptionKeys ==> StringOption(write.options, n).None?
    ensures var probe := FullKey("whois", CacheKeyFor(lookup));
            var after := Stored(m, FullKey("whois", CacheKey(write)), value, TtlForCommand("whois"), maxSize, now);
            Hit(after, probe, later) ==> Hit(m, probe, later) && after.table[probe] == m.table[probe]
  {
    WhoisLookupNeverMatchesWrite(lookup, write);
    var probe := FullKey("whois", CacheKeyFor(lookup));
    var written := FullKey("whois", CacheKey(write));
    if probe == written {
      FullKeyInjective("whois", CacheKeyFor(lookup), "whois", CacheKey(write));
    }
  }

  /** Corrected: when both paths use `CacheKeyFor`, a stored reply is found
      again until it expires, and two users' `whois` replies never share an
      entry. */
  lemma CacheKeyForRoundTrip(m: Table, inter: Interaction, value: JsValue, maxSize: int, now: int, later: int)
    requires m.Valid()
    ensures var full := FullKey(inter.commandName, CacheKeyFor(inter));
            var ttl := TtlForCommand(inter.commandName);
            Hit(Stored(m, full, value, ttl, maxSize, now), full, later) <==> later < now + ttl
  {
    StoredThenRead(m, FullKey(inter.commandName, CacheKeyFor(inter)), value,
                   TtlForCommand(inter.commandName), maxSize, now, later);
  }

  lemma WhoisKeysPerUser(i1: Interaction, i2: Interaction)
    requires i1.commandName == "whois" && i2 == i1.(userId := i2.userId)
    requires i1.userId != i2.userId
    ensures CacheKeyFor(i1) != CacheKeyFor(i2)
  {
    var base := CacheKey(i1);
    assert CacheKey(i2) == base;
    assert CacheKeyFor(i1)[|base| + 1..] == i1.userId;
    assert CacheKeyFor(i2)[|base| + 1..] == i2.userId;
  }

  // ---------------------------------------------------------------------------
  // Cooldowns

  /** `spamCooldown || command.cooldown || 3`, in seconds. */
  function CooldownSeconds(commandName: string, declared: Option<int>): (r: int)
    ensures commandName in SpamProneCommands ==> r == SpamProneCommands[commandName]
    ensures commandName !in SpamProneCommands && declared.Some? && declared.value != 0 ==> r == declared.value
    ensures commandName !in SpamProneCommands && (declared.None? || declared.value == 0) ==> r == 3
  {
    if commandName in SpamProneCommands then SpamProneCommands[commandName]
    else if declared.Some? && declared.value != 0 then declared.value
    else 3
  }

  /** The key of a server-wide cooldown. */
  function ServerKey(guildId: string, commandName: string): string
  {
    guildId + "-" + commandName
  }

  datatype Decision =
    | Ignored
    | ServerCooldown(remainingMs: int)
    | UserCooldown(remainingMs: int, spamProne: bool)
    | Admitted

  /** The two cooldown tables. */
  datatype Cooldowns = Cooldowns(server: map<string, int>, user: map<string, map<string, int>>)

  /** Whether the server-wide check applies to this invocation. */
  predicate ServerWide(inter: Interaction)
  {
    inter.guildId.Some? && inter.commandName in ServerWideCommands
  }

  /** The decision `handleCommand` reaches at `now`, and the tables after it. */
  function Decide(c: Cooldowns, inter: Interaction, command: Option<CommandInfo>, isChatInput: bool, now: int): (r: (Decision, Cooldowns))
    ensures r.0 == Ignored <==> !isChatInput || command.None?
    ensures r.0 == Ignored ==> r.1 == c
    ensures r.0.ServerCooldown? ==> ServerWide(inter) && r.0.remainingMs > 0 && r.1.user == c.user
    ensures r.0.UserCooldown? ==> r.0.remainingMs > 0 && r.0.spamProne == (inter.commandName in SpamProneCommands)
    ensures r.0 == Admitted ==>
              inter.commandName in r.1.user && inter.userId in r.1.user[inter.commandName] &&
              r.1.user[inter.commandName][inter.userId] == now
    ensures r.0 == Admitted && ServerWide(inter) ==>
              var key := ServerKey(inter.guildId.value, inter.commandName);
              key in r.1.server && r.1.server[key] == now
  {
    if !isChatInput || command.None? then (Ignored, c)
    else
      var name := inter.commandName;
      var serverKey := if inter.guildId.Some? then ServerKey(inter.guildId.value, name) else "";
      var last := if serverKey in c.server then c.server[serverKey] else 0;
      var serverAmount := if name in ServerWideCommands then ServerWideCommands[name] * 1000 else 0;
      if ServerWide(inter) && last != 0 && now < last + serverAmount then
        (ServerCooldown(last + serverAmount - now), c.(server := c.server[serverKey := last]))
      else
        var server := if ServerWide(inter) then c.server[serverKey := now] else c.server;
        var amount := CooldownSeconds(name, command.value.cooldown) * 1000;
        var stamps := if name in c.user then c.user[name] else map[];
        if inter.userId in stamps && now < stamps[inter.userId] + amount then
          (UserCooldown(stamps[inter.userId] + amount - now, name in SpamProneCommands),
           Cooldowns(server, c.user[name := stamps]))
        else
          (Admitted, Cooldowns(server, c.user[name := stamps[inter.userId := now]]))
  }

  /** The first use of a command by a user, with no server-wide record, is
      admitted, and records `now` for that user. */
  lemma FirstUseAdmitted(c: Cooldowns, inter: Interaction, command: CommandInfo, now: int)
    requires inter.commandName !in c.user || inter.userId !in c.user[inter.commandName]
    requires ServerWide(inter) ==> ServerKey(inter.guildId.value, inter.commandName) !in c.server
    ensures Decide(c, inter, Some(command), true, now).0 == Admitted
    ensures Decide(c, inter, Some(command), true, now).1.user[inter.commandName][inter.userId] == now
  {
  }

  /** Once admitted at `t0`, the same user invoking the same command again
      before `t0` plus the cooldown is turned away. */
  lemma RetryWithinCooldownBlocked(c: Cooldowns, inter: Interaction, command: CommandInfo, t0: int, t1: int)
    requires Decide(c, inter, Some(command), true, t0).0 == Admitted
    requires t0 <= t1 < t0 + CooldownSeconds(inter.commandName, command.cooldown) * 1000
    ensures Decide(Decide(c, inter, Some(command), true, t0).1, inter, Some(command), true, t1).0 != Admitted
  {
  }

  /** Once admitted at `t0 != 0`, anyone in that guild invoking a server-wide
      command before `t0` plus its server cooldown is turned away for the server. */
  lemma ServerCooldownBlocksEveryone(c: Cooldowns, inter: Interaction, other: Interaction, command: CommandInfo, t0: int, t1: int)
    requires ServerWide(inter) && t0 != 0
    requires other == inter.(userId := other.userId)
    requires Decide(c, inter, Some(command), true, t0).0 == Admitted
    requires t0 <= t1 < t0 + ServerWideCommands[inter.commandName] * 1000
    ensures Decide(Decide(c, inter, Some(command), true, t0).1, other, Some(command), true, t1).0 ==
              ServerCooldown(t0 + ServerWideCommands[inter.commandName] * 1000 - t1)
  {
  }

  /** Outside a guild, or for the other commands, there is no server-wide
      cooldown and its table is left as it is. */
  lemma NoServerCooldownOutsideList(c: Cooldowns, inter: Interaction, command: Option<CommandInfo>, isChatInput: bool, now: int)
    requires !ServerWide(inter)
    ensures !Decide(c, inter, command, isChatInput, now).0.ServerCooldown?
    ensures Decide(c, inter, command, isChatInput, now).1.server == c.server
  {
  }

  /** A blocked invocation leaves every user timestamp as it was; a server-wide
      block leaves the server timestamps too, but a user block that follows a
      passed server-wide check has already moved that check's timestamp to `now`. */
  lemma BlockedKeepsTimestamps(c: Cooldowns, inter: Interaction, command: CommandInfo, now: int)
    requires Decide(c, inter, Some(command), true, now).0 != Admitted
    ensures var c1 := Decide(c, inter, Some(command), true, now).1;
            && (forall n, u :: n in c.user && u in c.user[n] ==> n in c1.user && u in c1.user[n] && c1.user[n][u] == c.user[n][u])
            && (Decide(c, inter, Some(command), true, now).0.ServerCooldown? ==>
                  forall k :: k in c.server ==> k in c1.server && c1.server[k] == c.server[k])
            && (Decide(c, inter, Some(command), true, now).0.UserCooldown? && ServerWide(inter) ==>
                  c1.server[ServerKey(inter.guildId.value, inter.commandName)] == now)
  {
  }

  /** When both cooldowns have run out the user is admitted again. */
  lemma AdmittedAfterCooldown(c: Cooldowns, inter: Interaction, command: CommandInfo, t0: int, t1: int)
    requires Decide(c, inter, Some(command), true, t0).0 == Admitted
    requires t1 >= t0 + CooldownSeconds(inter.commandName, command.cooldown) * 1000
    requires ServerWide(inter) ==> t1 >= t0 + ServerWideCommands[inter.commandName] * 1000
    ensures Decide(Decide(c, inter, Some(command), true, t0).1, inter, Some(command), true, t1).0 == Admitted
  {
  }

  /** Writing a key's own value back leaves a map as it is. */
  lemma UpdateSame<K, V>(m: map<K, V>, k: K)
    requires k in m
    ensures m[k := m[k]] == m
  {
  }

  /** The second write to a key wins. */
  lemma UpdateTwice<K, V>(m: map<K, V>, k: K, a: V, b: V)
    ensures m[k := a][k := b] == m[k := b]
  {
  }

  // ---------------------------------------------------------------------------
  // The handler

  class CommandHandler {
    var cooldowns: Cooldowns
    const cache: CommandCacheManager

    ghost predicate Valid()
      reads this, cache, cache.store
    {
      cache.Valid()
    }

    constructor (cache: CommandCacheManager)
      ensures this.cache == cache && cooldowns == Cooldowns(map[], map[])
    {
      this.cache := cache;
      cooldowns := Cooldowns(map[], map[]);
    }

    /** The cooldown part of `handleCommand`: ignore what is not a known
        slash command, then the server-wide check, then the per-user check. */
    method HandleCommand(inter: Interaction, command: Option<CommandInfo>, isChatInput: bool, now: int) returns (d: Decision)
      modifies this
      ensures (d, cooldowns) == Decide(old(cooldowns), inter, command, isChatInput, now)
    {
      if !isChatInput || command.None? {
        return Ignored;
      }
      var name := inter.commandName;
      if inter.guildId.Some? && name in ServerWideCommands {
        var serverKey := ServerKey(inter.guildId.value, name);
        if serverKey !in cooldowns.server {
          cooldowns := cooldowns.(server := cooldowns.server[serverKey := 0]);
        } else {
          UpdateSame(cooldowns.server, serverKey);
        }
        var lastServerUse := cooldowns.server[serverKey];
        var serverAmount := ServerWideCommands[name] * 1000;
        if lastServerUse != 0 && now < lastServerUse + serverAmount {
          return ServerCooldown(lastServerUse + serverAmount - now);
        }
        cooldowns := cooldowns.(server := cooldowns.server[serverKey := now]);
        UpdateTwice(old(cooldowns).server, serverKey, lastServerUse, now);
      }
      var amount := CooldownSeconds(name, command.value.cooldown) * 1000;
      if name !in cooldowns.user {
        cooldowns := cooldowns.(user := cooldowns.user[name := map[]]);
      } else {
        UpdateSame(cooldowns.user, name);
      }
      var stamps := cooldowns.user[name];
      if inter.userId in stamps {
        var expiration := stamps[inter.userId] + amount;
        if now < expiration {
          return UserCooldown(expiration - now, name in SpamProneCommands);
        }
      }
      cooldowns := cooldowns.(user := cooldowns.user[name := stamps[inter.userId := now]]);
      UpdateTwice(old(cooldowns).user, name, stamps, stamps[inter.userId := now]);
      d := Admitted;
    }

    /** `tryGetFromCache`: a hit is a truthy value found under the lookup
        key, with caching enabled; the lookup counts a hit or a miss, tracks
        the command's stats and drops an expired entry. */
    method TryGetFromCache(inter: Interaction, command: CommandInfo, now: int) returns (hit: bool)
      requires Valid()
      modifies cache, cache.store
      ensures Valid() && cache.cacheEnabled == old(cache.cacheEnabled)
      ensures !LookupAllowed(inter.commandName, command, inter) || !cache.cacheEnabled ==>
                && !hit
                && cache.store.entries == old(cache.store.entries) && cache.commandStats == old(cache.commandStats)
                && cache.store.hits == old(cache.store.hits) && cache.store.misses == old(cache.store.misses)
      ensures LookupAllowed(inter.commandName, command, inter) && cache.cacheEnabled ==>
                var full := FullKey(inter.commandName, CacheKeyFor(inter));
                var found := Hit(old(cache.store.entries), full, now);
                && hit == (found && Truthy(old(cache.store.entries).table[full].value))
                && cache.store.entries == (if found then old(cache.store.entries) else old(cache.store.entries).Remove(full))
                && cache.store.hits == old(cache.store.hits) + (if found then 1 else 0)
                && cache.store.misses == old(cache.store.misses) + (if found then 0 else 1)
                && cache.commandStats == Tracked(old(cache.commandStats), inter.commandName, hit, now)
    {
      if !(inter.commandName in CacheableCommands) || command.neverCache == JBool(true) || inter.subcommand.Some? {
        return false;
      }
      var key := BuildCacheKey(inter);
      if inter.commandName == "whois" {
        key := key + (":" + inter.userId);
      }
      assert key == CacheKeyFor(inter);
      var cached := cache.GetCommandCache(inter.commandName, key, now);
      hit := Truthy(cached);
    }

    /** The caching step of the `reply`/`editReply` overrides: the reply is
        stored under the bare built key, with no `whois` user suffix. */
    method OnReply(inter: Interaction, command: CommandInfo, replyOptions: JsValue, now: int) returns (cached: bool)
      requires Valid()
      modifies cache.store
      ensures Valid()
      ensures cached == (WriteAllowed(inter.commandName, command, replyOptions) && cache.cacheEnabled)
      ensures cached ==>
                cache.store.entries == Stored(old(cache.store.entries), FullKey(inter.commandName, CacheKey(inter)),
                                              replyOptions, TtlForCommand(inter.commandName), cache.store.maxSize, now)
      ensures !cached ==> cache.store.entries == old(cache.store.entries)
      ensures cache.store.hits == old(cache.store.hits) && cache.store.misses == old(cache.store.misses)
    {
      if !(inter.commandName in CacheableCommands) || Truthy(command.neverCache) || replyOptions == JUndefined {
        return false;
      }
      var isError := LooksLikeError(Field(replyOptions, "content"));
      if isError != Some(false) {
        return false;
      }
      var key := BuildCacheKey(inter);
      var ttl := TtlForCommand(inter.commandName);
      cached := cache.SetCommandCache(inter.commandName, key, replyOptions, Some(ttl), now);
    }
  }
}
