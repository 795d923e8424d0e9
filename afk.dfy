/** The AFK registry: who is away, why and since when, and the ` (AFK)`
    nickname suffix added when going away and stripped on return. */
module Afk {
  import opened JsValues
  import opened OrderedMaps

  /** One user's AFK record. */
  datatype AfkRecord = AfkRecord(reason: string, timestamp: int)

  /** What happens to a member's nickname. */
  datatype NickChange = KeepNick | SetNick(nick: string) | ResetNick

  /** Discord's nickname length limit. */
  const MaxNickLength := 32

  const AfkMarker := "(AFK)"
  const AfkSuffix := " (AFK)"

  /** `interaction.options.getString('reason') || 'AFK'`. */
  function ReasonOrDefault(reason: Option<string>): (r: string)
    ensures reason.Some? && reason.value != "" ==> r == reason.value
    ensures reason.None? || reason.value == "" ==> r == "AFK"
    ensures r != ""
  {
    if reason.Some? && reason.value != "" then reason.value else "AFK"
  }

  /** `member.nickname || member.user.username`. */
  function CurrentNick(nickname: Option<string>, username: string): (r: string)
    ensures nickname.Some? && nickname.value != "" ==> r == nickname.value
    ensures nickname.None? || nickname.value == "" ==> r == username
  {
    if nickname.Some? && nickname.value != "" then nickname.value else username
  }

  /** The nickname set on going AFK: unchanged if it already ends with
      `(AFK)`, otherwise the name with ` (AFK)` appended, cut to 32 characters. */
  function AfkNickname(current: string): (r: NickChange)
    ensures r.KeepNick? <==> EndsWith(current, AfkMarker)
    ensures r.SetNick? ==> |r.nick| <= MaxNickLength
    ensures r.SetNick? ==> |r.nick| == if |current| + 6 <= MaxNickLength then |current| + 6 else MaxNickLength
    ensures r.SetNick? ==> r.nick <= current + AfkSuffix
    ensures !r.ResetNick?
  {
    if EndsWith(current, AfkMarker) then KeepNick
    else
      var full := current + AfkSuffix;
      SetNick(if |full| <= MaxNickLength then full else full[..MaxNickLength])
  }

  /** `current.replace(/ \(AFK\)$/, '')`: one trailing ` (AFK)` removed. */
  function StripAfkSuffix(current: string): (r: string)
    ensures EndsWith(current, AfkSuffix) ==> current == r + AfkSuffix
    ensures !EndsWith(current, AfkSuffix) ==> r == current
  {
    if EndsWith(current, AfkSuffix) then current[..|current| - |AfkSuffix|] else current
  }

  /** For a name ending in `(AFK)`, stripping leaves nothing exactly when
      the name is the bare suffix. */
  lemma StripLeavesNothing(current: string)
    requires EndsWith(current, AfkMarker)
    ensures StripAfkSuffix(current) == "" <==> current == AfkSuffix
  {
    if EndsWith(current, AfkSuffix) {
      assert current == StripAfkSuffix(current) + AfkSuffix;
    } else {
      assert |current| >= |AfkMarker|;
      assert EndsWith(AfkSuffix, AfkSuffix);
    }
  }

  /** The nickname change on returning: only a name ending in `(AFK)` is
      touched; one trailing ` (AFK)` is removed, and an empty result resets
      the nickname. */
  function ReturnNickname(current: string): (r: NickChange)
    ensures r.KeepNick? <==> !EndsWith(current, AfkMarker)
    ensures r.SetNick? ==> r.nick == StripAfkSuffix(current) && r.nick != ""
    ensures r.ResetNick? <==> current == AfkSuffix
  {
    if !EndsWith(current, AfkMarker) then
      assert current != AfkSuffix by {
        assert EndsWith(AfkSuffix, AfkMarker);
      }
      KeepNick
    else
      var stripped := StripAfkSuffix(current);
      StripLeavesNothing(current);
      if stripped == "" then ResetNick else SetNick(stripped)
  }

  /** A nickname of at most 26 characters survives a round trip through
      going AFK and coming back; the empty name comes back as a reset. */
  lemma AfkNicknameRestored(current: string)
    requires |current| + |AfkSuffix| <= MaxNickLength
    requires !EndsWith(current, AfkMarker)
    ensures AfkNickname(current) == SetNick(current + AfkSuffix)
    ensures ReturnNickname(current + AfkSuffix) == if current == "" then ResetNick else SetNick(current)
  {
    var n := current + AfkSuffix;
    assert n[|n| - |AfkMarker|..] == AfkMarker;
    assert n[|n| - |AfkSuffix|..] == AfkSuffix;
    assert n[..|n| - |AfkSuffix|] == current;
  }

  /** A nickname of 27 to 31 characters gets a cut suffix that the return
      path does not recognise, so the nickname is left as it is. */
  lemma LongNicknameKeepsCutSuffix(current: string)
    requires MaxNickLength - |AfkSuffix| < |current| < MaxNickLength
    requires !EndsWith(current, AfkMarker)
    ensures AfkNickname(current).SetNick?
    ensures |AfkNickname(current).nick| == MaxNickLength
    ensures ReturnNickname(AfkNickname(current).nick) == KeepNick
  {
    var full := current + AfkSuffix;
    var n := full[..MaxNickLength];
    assert AfkNickname(current) == SetNick(n);
    // the last character of the cut name is a character of the suffix other than ')'
    assert n[|n| - 1] == AfkSuffix[MaxNickLength - 1 - |current|] != ')';
    assert !EndsWith(n, AfkMarker) by {
      assert n[|n| - |AfkMarker|..][|AfkMarker| - 1] == n[|n| - 1];
    }
  }

  class AfkRegistry {
    var users: OMap<string, AfkRecord>
    /** The object last written to the data file, if any. */
    var saved: Option<OMap<string, AfkRecord>>

    ghost predicate Valid()
      reads this
    {
      users.Valid()
    }

    constructor ()
      ensures Valid() && users == EmptyMap() && saved.None?
    {
      users := EmptyMap();
      saved := None;
    }

    function Lookup(userId: string): (r: Option<AfkRecord>)
      reads this
      ensures r.Some? <==> userId in users.table
      ensures r.Some? ==> r.value == users.table[userId]
    {
      if userId in users.table then Some(users.table[userId]) else None
    }

    /** Start-up load: each entry of the parsed file is set in file order;
        a missing or unparsable file loads nothing. */
    method Load(parsed: Option<OMap<string, AfkRecord>>)
      requires Valid()
      requires parsed.Some? ==> parsed.value.Valid()
      modifies this
      ensures Valid() && saved == old(saved)
      ensures parsed.None? ==> users == old(users)
      ensures parsed.Some? ==> users == PutAll(old(users), parsed.value.keys, parsed.value.table)
    {
      if parsed.None? {
        return;
      }
      var data := parsed.value;
      for i := 0 to |data.keys|
        invariant Valid() && saved == old(saved)
        invariant users == PutAll(old(users), data.keys[..i], data.table)
      {
        PutAllExtend(old(users), data.keys, data.table, i);
        users := users.Put(data.keys[i], data.table[data.keys[i]]);
      }
      WholePrefix(data.keys);
    }

    /** `saveAfkData`: the object written has the map's entries in order. */
    method Save()
      requires Valid()
      modifies this
      ensures Valid() && users == old(users)
      ensures saved == Some(users)
    {
      saved := Some(users);
    }

    /** The AFK command: the record for the user is replaced by one with the
        given reason (default `AFK`) and the current time, saved, and the
        nickname change computed when the member can be renamed. */
    method SetAfk(userId: string, reason: Option<string>, now: int,
                  manageable: bool, nickname: Option<string>, username: string)
      returns (change: NickChange)
      requires Valid()
      modifies this
      ensures Valid()
      ensures users == old(users).Put(userId, AfkRecord(ReasonOrDefault(reason), now))
      ensures saved == Some(users)
      ensures change == if manageable then AfkNickname(CurrentNick(nickname, username)) else KeepNick
    {
      users := users.Put(userId, AfkRecord(ReasonOrDefault(reason), now));
      Save();
      change := KeepNick;
      if manageable {
        change := AfkNickname(CurrentNick(nickname, username));
      }
    }

    /** A returning author's record is removed and the registry saved;
        nothing happens for an author who was not away. */
    method ClearAfk(userId: string) returns (wasAfk: bool)
      requires Valid()
      modifies this
      ensures Valid()
      ensures wasAfk <==> userId in old(users).table
      ensures users == old(users).Remove(userId)
      ensures wasAfk ==> saved == Some(users)
      ensures !wasAfk ==> saved == old(saved)
    {
      wasAfk := userId in users.table;
      if wasAfk {
        users := users.Remove(userId);
        Save();
      }
    }
  }

  /** Saving the registry and loading the file back reproduces it. */
  lemma SaveLoadRoundTrip(users: OMap<string, AfkRecord>)
    requires users.Valid()
    ensures PutAll(EmptyMap(), users.keys, users.table) == users
  {
    PutAllRoundTrip(users);
  }

  /** Going AFK twice keeps only the later record. */
  lemma SetAfkOverwrites(users: OMap<string, AfkRecord>, userId: string, a: AfkRecord, b: AfkRecord)
    requires users.Valid()
    ensures users.Put(userId, a).Put(userId, b) == users.Put(userId, b)
    ensures userId in users.table ==> users.Put(userId, b).keys == users.keys
  {
  }
}
