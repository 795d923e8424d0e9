/** The message-created event: restricted-tag and link enforcement, the
    return of AFK authors and notices for mentioned AFK users. */
module MessageEvents {
  import opened JsValues
  import opened OrderedMaps
  import opened RoleGate
  import opened Afk

  const MinuteMs := 60000
  const HourMs := 3600000
  const DayMs := 86400000

  // ---------------------------------------------------------------------------
  // How long ago

  /** `n unit`, with an `s` unless n is 1. */
  function Plural(n: int, unit: string): (r: string)
    ensures n == 1 ==> r == IntToString(n) + " " + unit
    ensures n != 1 ==> r == IntToString(n) + " " + unit + "s"
  {
    IntToString(n) + " " + unit + (if n != 1 then "s" else "")
  }

  /** Whole minutes, then whole hours, then whole days of a duration, as
      successive floors; the floor of a floor is the floor of the product. */
  lemma NestedFloor(d: int)
    requires d >= 0
    ensures (d / MinuteMs) / 60 == d / HourMs
    ensures ((d / MinuteMs) / 60) / 24 == d / DayMs
  {
    var m := d / MinuteMs;
    var h := m / 60;
    assert d == m * MinuteMs + d % MinuteMs;
    assert m == h * 60 + m % 60;
    assert d == h * HourMs + (m % 60) * MinuteMs + d % MinuteMs;
    assert 0 <= (m % 60) * MinuteMs + d % MinuteMs < HourMs;
    var days := h / 24;
    assert h == days * 24 + h % 24;
    assert d == days * DayMs + (h % 24) * HourMs + (m % 60) * MinuteMs + d % MinuteMs;
  }

  /** `formatTimeDifference`: the age of a timestamp in the largest whole
      unit, with everything under one minute shown as such. */
  function FormatTimeDifference(now: int, timestamp: int): (r: string)
    ensures now - timestamp < MinuteMs ==> r == "less than a minute"
    ensures MinuteMs <= now - timestamp < HourMs ==> r == Plural((now - timestamp) / MinuteMs, "minute")
    ensures HourMs <= now - timestamp < DayMs ==> r == Plural((now - timestamp) / HourMs, "hour")
    ensures DayMs <= now - timestamp ==> r == Plural((now - timestamp) / DayMs, "day")
  {
    var minutes := (now - timestamp) / MinuteMs;
    if minutes < 1 then "less than a minute"
    else if minutes < 60 then Plural(minutes, "minute")
    else
      NestedFloor(now - timestamp);
      var hours := minutes / 60;
      if hours < 24 then Plural(hours, "hour")
      else Plural(hours / 24, "day")
  }

  // ---------------------------------------------------------------------------
  // Link detection

  /** `pattern` (lower case) occurs at `i`, ignoring the case of ASCII letters. */
  predicate MatchesAt(text: string, i: int, pattern: string)
  {
    0 <= i && i + |pattern| <= |text| && ToLower(text[i..i + |pattern|]) == pattern
  }

  /** A link starts at `i`: `http://` or `https://` in any letter case,
      followed by at least one character that is not white space. */
  predicate UrlAt(text: string, i: int)
  {
    (MatchesAt(text, i, "http://") && i + 7 < |text| && !IsJsWhitespace(text[i + 7])) ||
    (MatchesAt(text, i, "https://") && i + 8 < |text| && !IsJsWhitespace(text[i + 8]))
  }

  /** Trying each start position from `i` on, as the pattern search does. */
  function ScanForUrl(text: string, i: nat): bool
    decreases |text| - i
  {
    if i >= |text| then false
    else UrlAt(text, i) || ScanForUrl(text, i + 1)
  }

  /** The scan from `i` succeeds exactly when a link starts at or after `i`. */
  lemma {:induction false} ScanFindsUrl(text: string, i: nat)
    ensures ScanForUrl(text, i) <==> exists j :: i <= j < |text| && UrlAt(text, j)
    decreases |text| - i
  {
    if i < |text| {
      ScanFindsUrl(text, i + 1);
      if !UrlAt(text, i) && exists j :: i <= j < |text| && UrlAt(text, j) {
        var j :| i <= j < |text| && UrlAt(text, j);
        assert i + 1 <= j;
      }
    }
  }

  /** `containsUrl`. */
  function ContainsUrl(text: string): (r: bool)
    ensures r <==> exists i :: 0 <= i < |text| && UrlAt(text, i)
  {
    ScanFindsUrl(text, 0);
    ScanForUrl(text, 0)
  }

  /** The message mentions everyone or everyone online. */
  predicate HasRestrictedTag(content: string)
  {
    Contains(content, "@everyone") || Contains(content, "@here")
  }

  // ---------------------------------------------------------------------------
  // What the handler does

  datatype Protection = TagProtection | LinkProtection

  datatype Action =
    | DeleteMessage
    | WarnByDm(protection: Protection)
    | TimeoutMember(protection: Protection, durationMs: int)
    | AnnounceTimeout(protection: Protection)
    | Rename(change: NickChange)
    | WelcomeBack
    | AfkNotice(userId: string, reason: string, since: string)

  /** A message as the handler sees it; platform facts are plain values. */
  datatype Message = Message(
    authorId: string,
    authorIsBot: bool,
    guildId: Option<string>,
    content: string,
    memberRoles: set<string>,
    moderatable: bool,
    manageable: bool,
    nickname: Option<string>,
    username: string,
    mentions: seq<string>)

  /** The message is deleted under the anti-tag rules. */
  predicate TagBlocked(msg: Message, tagSettings: Option<GuildSettings>)
  {
    !msg.authorIsBot && msg.guildId.Some? && HasRestrictedTag(msg.content) && !IsAllowed(tagSettings, msg.memberRoles)
  }

  /** The message is deleted under the anti-link rules. */
  predicate LinkBlocked(msg: Message, linkSettings: Option<GuildSettings>)
  {
    !msg.authorIsBot && msg.guildId.Some? && ContainsUrl(msg.content) && !IsAllowed(linkSettings, msg.memberRoles)
  }

  /** Enforcement: delete, warn by direct message, and time the member out
      for the configured minutes when there are any and the member can be. */
  function Enforcement(protection: Protection, settings: GuildSettings, moderatable: bool): (r: seq<Action>)
    ensures |r| >= 2 && r[0] == DeleteMessage && r[1] == WarnByDm(protection)
  {
    [DeleteMessage, WarnByDm(protection)] +
    (if settings.timeout > 0 && moderatable then [TimeoutMember(protection, settings.timeout * MinuteMs), AnnounceTimeout(protection)] else [])
  }

  /** A timeout is applied exactly when one is configured and the member can
      be timed out, and then it lasts the configured minutes. */
  lemma TimeoutOnlyWhenConfigured(protection: Protection, settings: GuildSettings, moderatable: bool, ms: int)
    ensures TimeoutMember(protection, ms) in Enforcement(protection, settings, moderatable) <==>
              settings.timeout > 0 && moderatable && ms == settings.timeout * MinuteMs
  {
    var r := Enforcement(protection, settings, moderatable);
    if settings.timeout > 0 && moderatable {
      assert r == [DeleteMessage, WarnByDm(protection), TimeoutMember(protection, settings.timeout * MinuteMs), AnnounceTimeout(protection)];
    } else {
      assert r == [DeleteMessage, WarnByDm(protection)];
    }
  }

  /** What a returning AFK author gets: the nickname change, when the member
      can be renamed and it is one, then the welcome back. */
  function ReturnActions(msg: Message): (r: seq<Action>)
    ensures r != [] && r[|r| - 1] == WelcomeBack
    ensures |r| == 2 <==> msg.manageable && EndsWith(CurrentNick(msg.nickname, msg.username), AfkMarker)
    ensures |r| == 2 ==> r[0] == Rename(ReturnNickname(CurrentNick(msg.nickname, msg.username)))
  {
    var change := ReturnNickname(CurrentNick(msg.nickname, msg.username));
    (if msg.manageable && !change.KeepNick? then [Rename(change)] else []) + [WelcomeBack]
  }

  /** One notice per mentioned user who is AFK, in mention order. */
  function MentionNotices(mentions: seq<string>, away: OMap<string, AfkRecord>, now: int): (r: seq<Action>)
    ensures |r| <= |mentions|
  {
    if mentions == [] then []
    else
      var before := MentionNotices(mentions[..|mentions| - 1], away, now);
      var u := mentions[|mentions| - 1];
      if u in away.table then
        before + [AfkNotice(u, away.table[u].reason, FormatTimeDifference(now, away.table[u].timestamp))]
      else before
  }

  /** Every notice is for a mentioned user who is AFK, with that user's
      reason and time away. */
  lemma {:induction false} NoticesOnlyForAfk(mentions: seq<string>, away: OMap<string, AfkRecord>, now: int, k: int)
    requires 0 <= k < |MentionNotices(mentions, away, now)|
    ensures var a := MentionNotices(mentions, away, now)[k];
            a.AfkNotice? && a.userId in mentions && a.userId in away.table &&
            a.reason == away.table[a.userId].reason &&
            a.since == FormatTimeDifference(now, away.table[a.userId].timestamp)
  {
    var init := mentions[..|mentions| - 1];
    var before := MentionNotices(init, away, now);
    if k < |before| {
      NoticesOnlyForAfk(init, away, now, k);
      assert forall x :: x in init ==> x in mentions;
    }
  }

  /** The mentioned users form a collection keyed by id, so no id repeats;
      then no user gets two notices. */
  lemma {:induction false} NoticesDistinct(mentions: seq<string>, away: OMap<string, AfkRecord>, now: int, j: int, k: int)
    requires NoDup(mentions)
    requires 0 <= j < k < |MentionNotices(mentions, away, now)|
    ensures var notices := MentionNotices(mentions, away, now);
            notices[j].AfkNotice? && notices[k].AfkNotice? && notices[j].userId != notices[k].userId
  {
    NoticesOnlyForAfk(mentions, away, now, j);
    NoticesOnlyForAfk(mentions, away, now, k);
    var init := mentions[..|mentions| - 1];
    var before := MentionNotices(init, away, now);
    InitNoDup(mentions);
    NoticesOnlyForAfk(init, away, now, j);
    if k < |before| {
      NoticesDistinct(init, away, now, j, k);
    } else {
      assert MentionNotices(mentions, away, now)[k].userId == mentions[|mentions| - 1];
    }
  }

  /** Every mentioned user who is AFK gets a notice. */
  lemma {:induction false} NoticeForEveryAfkMention(mentions: seq<string>, away: OMap<string, AfkRecord>, now: int, i: int)
    requires 0 <= i < |mentions| && mentions[i] in away.table
    ensures AfkNotice(mentions[i], away.table[mentions[i]].reason,
                      FormatTimeDifference(now, away.table[mentions[i]].timestamp)) in MentionNotices(mentions, away, now)
  {
    var init := mentions[..|mentions| - 1];
    if i < |mentions| - 1 {
      assert init[i] == mentions[i];
      NoticeForEveryAfkMention(init, away, now, i);
    }
  }

  /** The anti-tag or anti-link settings that apply to the message's guild. */
  function GuildSettingsFor(store: GuildSettingsStore, msg: Message): (r: Option<GuildSettings>)
    reads store
    ensures msg.guildId.None? ==> r.None?
    ensures msg.guildId.Some? ==> r == store.Lookup(msg.guildId.value)
  {
    if msg.guildId.Some? then store.Lookup(msg.guildId.value) else None
  }

  /** The notices loop over the mentioned users. */
  method NoticeMentions(afk: AfkRegistry, mentions: seq<string>, now: int) returns (notices: seq<Action>)
    ensures notices == MentionNotices(mentions, afk.users, now)
  {
    notices := [];
    for i := 0 to |mentions|
      invariant notices == MentionNotices(mentions[..i], afk.users, now)
    {
      PrefixSnoc(mentions, i);
      var userId := mentions[i];
      if userId in afk.users.table {
        var info := afk.users.table[userId];
        notices := notices + [AfkNotice(userId, info.reason, FormatTimeDifference(now, info.timestamp))];
      }
    }
    WholePrefix(mentions);
  }

  /** `execute` of the message-created event. */
  method HandleMessage(afk: AfkRegistry, antilink: GuildSettingsStore, antitag: GuildSettingsStore, msg: Message, now: int)
    returns (actions: seq<Action>)
    requires afk.Valid()
    modifies afk
    ensures afk.Valid()
    ensures msg.authorIsBot ==> actions == [] && afk.users == old(afk.users) && afk.saved == old(afk.saved)
    ensures TagBlocked(msg, GuildSettingsFor(antitag, msg)) ==>
              actions == Enforcement(TagProtection, GuildSettingsFor(antitag, msg).value, msg.moderatable) &&
              afk.users == old(afk.users) && afk.saved == old(afk.saved)
    ensures !TagBlocked(msg, GuildSettingsFor(antitag, msg)) && LinkBlocked(msg, GuildSettingsFor(antilink, msg)) ==>
              actions == Enforcement(LinkProtection, GuildSettingsFor(antilink, msg).value, msg.moderatable) &&
              afk.users == old(afk.users) && afk.saved == old(afk.saved)
    ensures !msg.authorIsBot && !TagBlocked(msg, GuildSettingsFor(antitag, msg)) && !LinkBlocked(msg, GuildSettingsFor(antilink, msg)) ==>
              afk.users == old(afk.users).Remove(msg.authorId) &&
              afk.saved == (if msg.authorId in old(afk.users).table then Some(afk.users) else old(afk.saved)) &&
              actions == (if msg.authorId in old(afk.users).table then ReturnActions(msg) else []) +
                         MentionNotices(msg.mentions, afk.users, now)
  {
    if msg.authorIsBot {
      return [];
    }
    var tagSettings := GuildSettingsFor(antitag, msg);
    if msg.guildId.Some? && HasRestrictedTag(msg.content) && !IsAllowed(tagSettings, msg.memberRoles) {
      return Enforcement(TagProtection, tagSettings.value, msg.moderatable);
    }
    var linkSettings := GuildSettingsFor(antilink, msg);
    if msg.guildId.Some? && ContainsUrl(msg.content) && !IsAllowed(linkSettings, msg.memberRoles) {
      return Enforcement(LinkProtection, linkSettings.value, msg.moderatable);
    }
    var wasAfk := afk.ClearAfk(msg.authorId);
    var returning := if wasAfk then ReturnActions(msg) else [];
    var notices := NoticeMentions(afk, msg.mentions, now);
    actions := returning + notices;
  }
}
