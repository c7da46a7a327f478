/** `SettingsService`: the site settings, read from the most recent record,
    which is created with the default site name when none exists. */
module Settings {
  import opened Common
  import opened Sequences

  const DefaultSiteName := "Dayang Transport"

  /** A row of the `settings` table; `social_links` is a JSON object. */
  datatype Setting = Setting(
    id: string,
    siteName: string,
    logo: Option<string>,
    email: Option<string>,
    phone: Option<string>,
    socialLinks: Option<map<string, string>>,
    createdAt: int)

  /** `UpdateSettingsDto`: every field optional (None = absent). */
  datatype UpdateSettingsDto = UpdateSettingsDto(
    siteName: Option<string>,
    logo: Option<string>,
    email: Option<string>,
    phone: Option<string>,
    socialLinks: Option<map<string, string>>)

  /** Unique ids (primary key). */
  predicate ValidStore(settings: seq<Setting>) {
    forall i, j :: 0 <= i < j < |settings| ==> settings[i].id != settings[j].id
  }

  /** `create({ site_name: 'Dayang Transport' })`. */
  function DefaultSetting(id: string, now: int): Setting {
    Setting(id, DefaultSiteName, None, None, None, None, now)
  }

  /** Index of a record with the greatest `created_at` (the first such). */
  function LatestIndex(settings: seq<Setting>): (r: nat)
    requires |settings| > 0
    ensures r < |settings|
    ensures forall k :: 0 <= k < |settings| ==> settings[k].createdAt <= settings[r].createdAt
  {
    if |settings| == 1 then 0
    else
      var j := LatestIndex(settings[1..]) + 1;
      if settings[0].createdAt >= settings[j].createdAt then 0 else j
  }

  /** `Object.assign(settings, dto)`: `social_links` is replaced as a whole,
      not merged key by key. */
  function Merge(s: Setting, dto: UpdateSettingsDto): (r: Setting)
    ensures r.id == s.id && r.createdAt == s.createdAt
    ensures r.siteName == (if dto.siteName.Some? then dto.siteName.value else s.siteName)
    ensures r.logo == (if dto.logo.Some? then dto.logo else s.logo)
    ensures r.email == (if dto.email.Some? then dto.email else s.email)
    ensures r.phone == (if dto.phone.Some? then dto.phone else s.phone)
    ensures r.socialLinks == (if dto.socialLinks.Some? then dto.socialLinks else s.socialLinks)
  {
    s.(siteName := Overwrite(s.siteName, dto.siteName),
       logo := OverwriteNullable(s.logo, dto.logo),
       email := OverwriteNullable(s.email, dto.email),
       phone := OverwriteNullable(s.phone, dto.phone),
       socialLinks := OverwriteNullable(s.socialLinks, dto.socialLinks))
  }

  // ------------------------------------------------------------ transitions

  /** `findOne`: the latest record, or a default one, inserted. */
  function ApplyFindOne(settings: seq<Setting>, id: string, now: int): (Setting, seq<Setting>) {
    if |settings| == 0 then (DefaultSetting(id, now), [DefaultSetting(id, now)])
    else (settings[LatestIndex(settings)], settings)
  }

  /** `update`: the record `findOne` yields, merged with the DTO and saved. */
  function ApplyUpdate(settings: seq<Setting>, dto: UpdateSettingsDto, id: string, now: int): (Setting, seq<Setting>) {
    if |settings| == 0 then (Merge(DefaultSetting(id, now), dto), [Merge(DefaultSetting(id, now), dto)])
    else
      var i := LatestIndex(settings);
      (Merge(settings[i], dto), settings[i := Merge(settings[i], dto)])
  }

  // ------------------------------------------------------------- properties

  /** With records present, `findOne` returns one with the greatest
      `created_at` and changes nothing; with none, it creates and returns
      the default record, which is then the only one. */
  lemma FindOneOutcome(settings: seq<Setting>, id: string, now: int)
    ensures var (s, after) := ApplyFindOne(settings, id, now);
      && (|settings| > 0 ==> s in settings && after == settings
                             && forall t :: t in settings ==> t.createdAt <= s.createdAt)
      && (|settings| == 0 ==> s.siteName == DefaultSiteName && s.logo.None? && s.email.None?
                              && s.phone.None? && s.socialLinks.None? && after == [s])
  {
    if |settings| > 0 {
      var i := LatestIndex(settings);
      forall t | t in settings ensures t.createdAt <= settings[i].createdAt {
        var k :| 0 <= k < |settings| && settings[k] == t;
      }
    }
  }

  /** A second `findOne` returns the same record and creates nothing. */
  lemma FindOneCreatesOnce(settings: seq<Setting>, id1: string, now1: int, id2: string, now2: int)
    ensures var (s1, after1) := ApplyFindOne(settings, id1, now1);
      ApplyFindOne(after1, id2, now2) == (s1, after1)
  {
  }

  /** Which record is the latest depends on the creation times only. */
  lemma {:induction false} LatestIndexByCreation(a: seq<Setting>, b: seq<Setting>)
    requires |a| == |b| > 0
    requires forall k :: 0 <= k < |a| ==> a[k].createdAt == b[k].createdAt
    ensures LatestIndex(a) == LatestIndex(b)
  {
    if |a| > 1 {
      LatestIndexByCreation(a[1..], b[1..]);
    }
  }

  /** `update` saves over the latest record only. */
  lemma UpdateLeavesOthers(settings: seq<Setting>, dto: UpdateSettingsDto, id: string, now: int)
    requires |settings| > 0
    ensures var after := ApplyUpdate(settings, dto, id, now).1;
      && |after| == |settings|
      && after[LatestIndex(settings)] == Merge(settings[LatestIndex(settings)], dto)
      && forall k :: 0 <= k < |settings| && k != LatestIndex(settings) ==> after[k] == settings[k]
  {
  }

  /** `update` edits the record `findOne` would return, keeps the absent
      fields, leaves every other record as it was, and leaves that record
      the latest: a later `findOne` returns the updated settings. */
  lemma UpdateOutcome(settings: seq<Setting>, dto: UpdateSettingsDto, id: string, now: int, id2: string, now2: int)
    ensures var (found, _) := ApplyFindOne(settings, id, now);
      var (s, after) := ApplyUpdate(settings, dto, id, now);
      && s == Merge(found, dto)
      && |after| == (if |settings| == 0 then 1 else |settings|)
      && (|settings| > 0 ==>
            && after[LatestIndex(settings)] == s
            && forall k :: 0 <= k < |settings| && k != LatestIndex(settings) ==> after[k] == settings[k])
      && ApplyFindOne(after, id2, now2) == (s, after)
  {
    if |settings| > 0 {
      var i := LatestIndex(settings);
      var s := Merge(settings[i], dto);
      var after := settings[i := s];
      assert ApplyUpdate(settings, dto, id, now) == (s, after);
      UpdateLeavesOthers(settings, dto, id, now);
      LatestIndexByCreation(settings, after);
    }
  }

  lemma UpdateKeepsValid(settings: seq<Setting>, dto: UpdateSettingsDto, id: string, now: int)
    requires ValidStore(settings)
    ensures ValidStore(ApplyUpdate(settings, dto, id, now).1)
    ensures ValidStore(ApplyFindOne(settings, id, now).1)
  {
    var after := ApplyUpdate(settings, dto, id, now).1;
    assert forall k :: 0 <= k < |settings| ==> after[k].id == settings[k].id;
  }

  // ------------------------------------------------------------------ state

  /** The service with its repository of settings records. */
  class SettingsService {
    var settings: seq<Setting>

    constructor(initial: seq<Setting>)
      requires ValidStore(initial)
      ensures settings == initial
    {
      settings := initial;
    }

    method FindOne(id: string, now: int) returns (s: Setting)
      requires ValidStore(settings)
      modifies this
      ensures ValidStore(settings)
      ensures (s, settings) == ApplyFindOne(old(settings), id, now)
    {
      if |settings| > 0 {
        return settings[LatestIndex(settings)];
      }
      s := DefaultSetting(id, now);
      settings := settings + [s];
      assert settings == [s];
    }

    method Update(dto: UpdateSettingsDto, id: string, now: int) returns (s: Setting)
      requires ValidStore(settings)
      modifies this
      ensures ValidStore(settings)
      ensures (s, settings) == ApplyUpdate(old(settings), dto, id, now)
    {
      UpdateKeepsValid(settings, dto, id, now);
      ghost var before := settings;
      s := FindOne(id, now);
      s := Merge(s, dto);
      if |before| == 0 {
        assert settings == [DefaultSetting(id, now)];
        assert LatestIndex(settings) == 0;
        assert settings[0 := s] == [s];
      }
      settings := settings[LatestIndex(settings) := s];
    }
  }
}
