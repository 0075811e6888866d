/** Editing the stream profiles of a configuration: nested maps from platforms to
    accounts to streams to named profiles, edited in place. */
module ProfileEditing {
  import opened Basics

  type PlatformID = string
  type AccountID = string
  type StreamID = string
  type ProfileName = string
  /** The document of one stream profile, and the metadata of a profile. */
  type StreamProfile = string
  type Metadata = string

  type NamedProfiles = map<ProfileName, StreamProfile>
  type StreamProfiles = map<StreamID, NamedProfiles>

  /** An account document; `profiles` is its `stream_profiles` entry, if it has one. */
  datatype Account = Empty | Account(profiles: Option<StreamProfiles>, other: map<string, string>)

  /** `Absent` stands for a nil platform configuration. */
  datatype Platform = Absent | Platform(accounts: map<AccountID, Account>)

  type PerStream = map<StreamIDFQ, StreamProfile>

  // ---- what a configuration says ----------------------------------------

  function ProfilesOf(a: Account): StreamProfiles {
    if a.Account? && a.profiles.Some? then a.profiles.value else map[]
  }

  function ProfileOf(ps: StreamProfiles, s: StreamID, n: ProfileName): Option<StreamProfile> {
    if s in ps && n in ps[s] then Some(ps[s][n]) else None
  }

  function AccountAt(backends: map<PlatformID, Platform>, plat: PlatformID, acc: AccountID): Option<Account> {
    if plat in backends && backends[plat].Platform? && acc in backends[plat].accounts
    then Some(backends[plat].accounts[acc]) else None
  }

  /** The profile of that name at a stream. */
  function Reads(backends: map<PlatformID, Platform>, id: StreamIDFQ, n: ProfileName): Option<StreamProfile> {
    var a := AccountAt(backends, id.platform, id.account);
    if a.None? then None else ProfileOf(ProfilesOf(a.value), id.stream, n)
  }

  function Lookup(perStream: PerStream, id: StreamIDFQ): Option<StreamProfile> {
    if id in perStream then Some(perStream[id]) else None
  }

  /** What is given for a stream, if its account exists. */
  function Given(backends: map<PlatformID, Platform>, perStream: PerStream, id: StreamIDFQ): Option<StreamProfile> {
    if AccountAt(backends, id.platform, id.account).Some? then Lookup(perStream, id) else None
  }

  /** The account with everything but its stream profiles. */
  function Rest(backends: map<PlatformID, Platform>, plat: PlatformID, acc: AccountID): Option<map<string, string>> {
    var a := AccountAt(backends, plat, acc);
    if a.None? then None else Some(if a.value.Account? then a.value.other else map[])
  }

  /** Both have the same accounts, alike in all but their stream profiles. */
  ghost predicate SameAccounts(b: map<PlatformID, Platform>, c: map<PlatformID, Platform>) {
    forall plat, acc :: Rest(b, plat, acc) == Rest(c, plat, acc)
  }

  /** Every profile name but `n` reads the same. */
  ghost predicate SameButFor(b: map<PlatformID, Platform>, c: map<PlatformID, Platform>, n: ProfileName) {
    forall id, m :: m != n ==> Reads(b, id, m) == Reads(c, id, m)
  }

  ghost predicate SameAccountNames(b: map<PlatformID, Platform>, c: map<PlatformID, Platform>) {
    forall plat, acc :: AccountAt(c, plat, acc).Some? <==> AccountAt(b, plat, acc).Some?
  }

  /** `c` is `b` after the profile `n` was created or updated: the name reads as given
      at the streams of existing accounts and nowhere else, whatever it was before;
      every other name, and all else in the accounts, is as before. */
  ghost predicate Updated(b: map<PlatformID, Platform>, c: map<PlatformID, Platform>, n: ProfileName, perStream: PerStream) {
    && (forall id :: Reads(c, id, n) == Given(b, perStream, id))
    && SameButFor(b, c, n) && SameAccounts(b, c) && SameAccountNames(b, c)
  }

  /** `c` is `b` after the profile `n` was deleted. */
  ghost predicate Deleted(b: map<PlatformID, Platform>, c: map<PlatformID, Platform>, n: ProfileName) {
    && (forall id :: Reads(c, id, n) == None)
    && SameButFor(b, c, n) && SameAccounts(b, c) && SameAccountNames(b, c)
  }

  class Config {
    var backends: map<PlatformID, Platform>
    var profileMetadata: map<ProfileName, Metadata>

    /** Go's nil maps read as empty ones, and panic when written to. */
    const backendsNil: bool
    const metadataNil: bool

    ghost predicate Valid()
      reads this
    {
      (backendsNil ==> backends == map[]) && (metadataNil ==> profileMetadata == map[])
    }

    /** `None` stands for a nil map. */
    constructor (backends: Option<map<PlatformID, Platform>>, profileMetadata: Option<map<ProfileName, Metadata>>)
      ensures Valid() && backendsNil == backends.None? && metadataNil == profileMetadata.None?
      ensures backends.Some? ==> this.backends == backends.value
      ensures profileMetadata.Some? ==> this.profileMetadata == profileMetadata.value
    {
      backendsNil, metadataNil := backends.None?, profileMetadata.None?;
      this.backends := if backends.Some? then backends.value else map[];
      this.profileMetadata := if profileMetadata.Some? then profileMetadata.value else map[];
    }

    /** Drops the name from all streams of an account. */
    method WithoutName(ps: StreamProfiles, n: ProfileName) returns (r: StreamProfiles, changed: bool)
      ensures r.Keys == ps.Keys
      ensures forall s, m :: ProfileOf(r, s, m) == if m == n then None else ProfileOf(ps, s, m)
      ensures changed <==> exists s :: ProfileOf(ps, s, n).Some?
      ensures !changed ==> r == ps
    {
      r, changed := ps, false;
      var left := ps.Keys;
      while left != {}
        invariant left <= ps.Keys == r.Keys
        invariant forall s :: s in ps.Keys ==> r[s] == if s in left then ps[s] else ps[s] - {n}
        invariant changed <==> exists s :: s in ps.Keys && s !in left && n in ps[s]
        invariant !changed ==> r == ps
        decreases left
      {
        var s :| s in left;
        left := left - {s};
        if n in r[s] {
          r := r[s := r[s] - {n}];
          changed := true;
        } else {
          assert ps[s] - {n} == ps[s];
        }
      }
      if changed {
        var s :| s in ps.Keys && n in ps[s];
        assert ProfileOf(ps, s, n).Some?;
      }
    }

    /** Drops the name from an account.  An update rewrites every account that is not
        empty, a deletion only those that had the name. */
    method EditAccount(a: Account, n: ProfileName, rewrite: bool) returns (r: Account)
      ensures Stripped(a, r, n)
      ensures !rewrite && (forall s :: ProfileOf(ProfilesOf(a), s, n).None?) ==> r == a
    {
      if a.Empty? || (!rewrite && a.profiles.None?) {
        return a;
      }
      var ps, changed := WithoutName(ProfilesOf(a), n);
      if rewrite || changed {
        return Account(Some(ps), a.other);
      }
      return a;
    }

    method EditAccounts(accounts: map<AccountID, Account>, n: ProfileName, rewrite: bool)
      returns (r: map<AccountID, Account>)
      ensures r.Keys == accounts.Keys
      ensures forall acc :: acc in r ==> Stripped(accounts[acc], r[acc], n)
    {
      r := accounts;
      var left := accounts.Keys;
      while left != {}
        invariant left <= accounts.Keys == r.Keys
        invariant forall acc :: acc in r && acc in left ==> r[acc] == accounts[acc]
        invariant forall acc :: acc in r && acc !in left ==> Stripped(accounts[acc], r[acc], n)
        decreases left
      {
        var acc :| acc in left;
        left := left - {acc};
        var edited := EditAccount(r[acc], n, rewrite);
        r := r[acc := edited];
      }
    }

    method RemoveEverywhere(n: ProfileName, rewrite: bool)
      modifies this`backends
      ensures Deleted(old(backends), backends, n) && backends.Keys == old(backends).Keys
    {
      ghost var was := backends;
      var left := backends.Keys;
      while left != {}
        invariant left <= was.Keys == backends.Keys
        invariant forall plat :: plat in backends && plat in left ==> backends[plat] == was[plat]
        invariant forall plat :: plat in backends && plat !in left ==> StrippedPlatform(was[plat], backends[plat], n)
        decreases left
      {
        var plat :| plat in left;
        left := left - {plat};
        if backends[plat].Absent? {
          continue;
        }
        var accounts := EditAccounts(backends[plat].accounts, n, rewrite);
        backends := backends[plat := Platform(accounts)];
      }
      StrippedReads(was, backends, n);
    }

    /** An empty account document becomes one with nothing but the profile. */
    method WithProfile(a: Account, s: StreamID, n: ProfileName, prof: StreamProfile) returns (r: Account)
      ensures r.Account? && r.other == if a.Account? then a.other else map[]
      ensures forall t, m :: ProfileOf(ProfilesOf(r), t, m) ==
                (if t == s && m == n then Some(prof) else ProfileOf(ProfilesOf(a), t, m))
    {
      var ps := ProfilesOf(a);
      var profiles := if s in ps then ps[s] else map[];
      ps := ps[s := profiles[n := prof]];
      return Account(Some(ps), if a.Account? then a.other else map[]);
    }

    /** Panics where the platform has to be entered in a nil map. */
    method PutProfile(id: StreamIDFQ, n: ProfileName, prof: StreamProfile) returns (panics: bool)
      requires Valid()
      modifies this`backends
      ensures Valid() && (panics <==> backendsNil)
      ensures panics ==> backends == old(backends)
      ensures SameAccounts(old(backends), backends) && SameAccountNames(old(backends), backends)
      ensures SameButFor(old(backends), backends, n)
      ensures AccountAt(old(backends), id.platform, id.account).Some? ==> Reads(backends, id, n) == Some(prof)
      ensures AccountAt(old(backends), id.platform, id.account).None? ==> Reads(backends, id, n) == None
      ensures forall i :: i != id ==> Reads(backends, i, n) == Reads(old(backends), i, n)
    {
      ghost var was := backends;
      if id.platform !in backends || backends[id.platform].Absent? {
        if backendsNil {
          return true;
        }
        backends := backends[id.platform := Platform(map[])];
      }
      assert forall plat, acc :: AccountAt(backends, plat, acc) == AccountAt(was, plat, acc);
      var accounts := backends[id.platform].accounts;
      if id.account !in accounts {
        return false;
      }
      var a := WithProfile(accounts[id.account], id.stream, n, prof);
      backends := backends[id.platform := Platform(accounts[id.account := a])];
      assert forall plat, acc :: AccountAt(backends, plat, acc) ==
               if plat == id.platform && acc == id.account then Some(a) else AccountAt(was, plat, acc);
      PutReads(was, backends, id, n, prof, a);
      return false;
    }

    /** Panics exactly when the metadata map is nil, or a stream is given and the map
        of platforms is; nothing is saved then. */
    method ProfileCreateOrUpdate(n: ProfileName, meta: Metadata, perStream: PerStream) returns (panics: bool)
      requires Valid()
      modifies this
      ensures Valid() && (panics <==> metadataNil || (backendsNil && perStream != map[]))
      ensures !panics ==> Updated(old(backends), backends, n, perStream)
      ensures !panics ==> profileMetadata == old(profileMetadata)[n := meta]
    {
      RemoveEverywhere(n, true);
      var left := perStream.Keys;
      while left != {}
        invariant left <= perStream.Keys
        invariant Valid() && profileMetadata == old(profileMetadata)
        invariant backendsNil ==> left == perStream.Keys
        invariant Updated(old(backends), backends, n, perStream - left)
        decreases left
      {
        var id :| id in left;
        left := left - {id};
        panics := PutProfile(id, n, perStream[id]);
        if panics {
          return;
        }
      }
      if metadataNil {
        return true;
      }
      profileMetadata := profileMetadata[n := meta];
      return false;
    }

    method ProfileDelete(n: ProfileName)
      requires Valid()
      modifies this
      ensures Valid() && Deleted(old(backends), backends, n)
      ensures profileMetadata == old(profileMetadata) - {n}
    {
      RemoveEverywhere(n, false);
      profileMetadata := profileMetadata - {n};
    }

    /** Collects what the configuration says of a name.  Qualifying a stream with an
        empty ID panics, which is `None` here. */
    method GetProfile(n: ProfileName) returns (perStream: Option<PerStream>)
      ensures perStream.Some? ==> forall id :: Reads(backends, id, n) == Lookup(perStream.value, id)
      ensures perStream.None? <==>
                exists id :: Reads(backends, id, n).Some? && (id.platform == "" || id.account == "" || id.stream == "")
    {
      var found: PerStream := map[];
      var plats := backends.Keys;
      while plats != {}
        invariant plats <= backends.Keys
        invariant Collected(backends, n, found, (id: StreamIDFQ) => id.platform !in plats)
        decreases plats
      {
        var plat :| plat in plats;
        plats := plats - {plat};
        if backends[plat].Absent? {
          continue;
        }
        var accs := backends[plat].accounts.Keys;
        while accs != {}
          invariant accs <= backends[plat].accounts.Keys
          invariant Collected(backends, n, found, (id: StreamIDFQ) =>
            id.platform !in plats && (id.platform == plat ==> id.account !in accs))
          decreases accs
        {
          var acc :| acc in accs;
          accs := accs - {acc};
          var ps := ProfilesOf(backends[plat].accounts[acc]);
          var streams := ps.Keys;
          while streams != {}
            invariant streams <= ps.Keys
            invariant Collected(backends, n, found, (id: StreamIDFQ) =>
              id.platform !in plats && (id.platform == plat ==> id.account !in accs)
              && (id.platform == plat && id.account == acc ==> id.stream !in streams))
            decreases streams
          {
            var s :| s in streams;
            streams := streams - {s};
            var id := StreamIDFQ(plat, acc, s);
            assert Reads(backends, id, n) == ProfileOf(ps, s, n);
            if n !in ps[s] {
              continue;
            }
            if plat == "" || acc == "" || s == "" {
              return None;
            }
            ghost var before := found;
            found := found[id := ps[s][n]];
            assert forall i :: Lookup(found, i) == if i == id then Reads(backends, id, n) else Lookup(before, i);
          }
        }
      }
      return Some(found);
    }
  }

  predicate Qualified(id: StreamIDFQ) {
    id.platform != "" && id.account != "" && id.stream != ""
  }

  /** `found` is what is read at the streams that were looked at. */
  ghost predicate Collected(b: map<PlatformID, Platform>, n: ProfileName, found: PerStream, seen: StreamIDFQ -> bool) {
    && (forall id :: id in found ==> Qualified(id))
    && (forall id :: Lookup(found, id) == if seen(id) then Reads(b, id, n) else None)
  }

  ghost predicate Stripped(a: Account, r: Account, n: ProfileName) {
    && (a.Empty? <==> r.Empty?)
    && (a.Account? ==> r.other == a.other)
    && forall s, m :: ProfileOf(ProfilesOf(r), s, m) == if m == n then None else ProfileOf(ProfilesOf(a), s, m)
  }

  ghost predicate StrippedPlatform(a: Platform, r: Platform, n: ProfileName) {
    if a.Absent? then r.Absent?
    else r.Platform? && r.accounts.Keys == a.accounts.Keys
         && forall acc :: acc in r.accounts ==> Stripped(a.accounts[acc], r.accounts[acc], n)
  }

  /** One account of `b` was replaced by one with the profile set. */
  lemma PutReads(b: map<PlatformID, Platform>, c: map<PlatformID, Platform>,
                 id: StreamIDFQ, n: ProfileName, prof: StreamProfile, a: Account)
    requires AccountAt(b, id.platform, id.account).Some?
    requires forall plat, acc :: AccountAt(c, plat, acc) ==
               if plat == id.platform && acc == id.account then Some(a) else AccountAt(b, plat, acc)
    requires var was := AccountAt(b, id.platform, id.account).value;
             && a.Account? && a.other == (if was.Account? then was.other else map[])
             && forall t, m :: ProfileOf(ProfilesOf(a), t, m) ==
                  if t == id.stream && m == n then Some(prof) else ProfileOf(ProfilesOf(was), t, m)
    ensures SameAccounts(b, c) && SameAccountNames(b, c)
    ensures forall i, m :: Reads(c, i, m) == if i == id && m == n then Some(prof) else Reads(b, i, m)
  {
  }

  lemma StrippedReads(b: map<PlatformID, Platform>, c: map<PlatformID, Platform>, n: ProfileName)
    requires b.Keys == c.Keys
    requires forall plat :: plat in c ==> StrippedPlatform(b[plat], c[plat], n)
    ensures Deleted(b, c, n)
  {
    forall plat, acc
      ensures Rest(b, plat, acc) == Rest(c, plat, acc)
      ensures AccountAt(c, plat, acc).Some? <==> AccountAt(b, plat, acc).Some?
      ensures AccountAt(b, plat, acc).Some? ==>
                Stripped(AccountAt(b, plat, acc).value, AccountAt(c, plat, acc).value, n)
    {
      if plat in c {
        assert StrippedPlatform(b[plat], c[plat], n);
      }
    }
  }

  // ---- laws of several edits --------------------------------------------

  /** What is written is what is read back, at the accounts that exist. */
  method UpdateThenGet(cfg: Config, n: ProfileName, meta: Metadata, perStream: PerStream)
    returns (panics: bool, perStream': Option<PerStream>)
    requires cfg.Valid() && forall id :: id in perStream ==> Qualified(id)
    modifies cfg
    ensures panics <==> cfg.metadataNil || (cfg.backendsNil && perStream != map[])
    ensures !panics ==>
              perStream' == Some(map id | id in perStream
                                        && AccountAt(old(cfg.backends), id.platform, id.account).Some? :: perStream[id])
  {
    panics := cfg.ProfileCreateOrUpdate(n, meta, perStream);
    if panics {
      return true, None;
    }
    assert forall id :: Reads(cfg.backends, id, n) == Given(old(cfg.backends), perStream, id);
    assert forall id :: Reads(cfg.backends, id, n).Some? ==> Qualified(id);
    perStream' := cfg.GetProfile(n);
    ghost var expected := map id | id in perStream
                                   && AccountAt(old(cfg.backends), id.platform, id.account).Some? :: perStream[id];
    SameLookups(perStream'.value, expected);
  }

  lemma SameLookups(p: PerStream, q: PerStream)
    requires forall id :: Lookup(p, id) == Lookup(q, id)
    ensures p == q
  {
    forall id
      ensures id in p <==> id in q
      ensures id in p ==> p[id] == q[id]
    {
      assert Lookup(p, id) == Lookup(q, id);
    }
  }

  /** A deleted profile is read as no profile at all. */
  method DeleteThenGet(cfg: Config, n: ProfileName) returns (perStream: Option<PerStream>)
    requires cfg.Valid()
    modifies cfg
    ensures perStream == Some(map[])
  {
    cfg.ProfileDelete(n);
    perStream := cfg.GetProfile(n);
    assert forall id :: Reads(cfg.backends, id, n) == None;
    SameLookups(perStream.value, map[]);
  }

  /** Of two updates of one profile only the second is seen. */
  lemma SecondUpdateWins(b: map<PlatformID, Platform>, c: map<PlatformID, Platform>, d: map<PlatformID, Platform>,
                         n: ProfileName, first: PerStream, second: PerStream)
    requires Updated(b, c, n, first) && Updated(c, d, n, second)
    ensures Updated(b, d, n, second)
  {
    forall id
      ensures Given(c, second, id) == Given(b, second, id)
    {
      assert AccountAt(c, id.platform, id.account).Some? <==> AccountAt(b, id.platform, id.account).Some?;
    }
  }

  /** Deleting a profile just created leaves what deleting it at once would. */
  lemma DeleteUndoesUpdate(b: map<PlatformID, Platform>, c: map<PlatformID, Platform>, d: map<PlatformID, Platform>,
                           n: ProfileName, perStream: PerStream)
    requires Updated(b, c, n, perStream) && Deleted(c, d, n)
    ensures Deleted(b, d, n)
    ensures (forall id :: Reads(b, id, n) == None) ==> forall id, m :: Reads(d, id, m) == Reads(b, id, m)
  {
  }

  /** Updates of different profiles can be made in either order. */
  lemma UpdatesCommute(b: map<PlatformID, Platform>,
                       c: map<PlatformID, Platform>, d: map<PlatformID, Platform>,
                       c': map<PlatformID, Platform>, d': map<PlatformID, Platform>,
                       n: ProfileName, p: PerStream, m: ProfileName, q: PerStream)
    requires n != m
    requires Updated(b, c, n, p) && Updated(c, d, m, q)
    requires Updated(b, c', m, q) && Updated(c', d', n, p)
    ensures forall id, k :: Reads(d, id, k) == Reads(d', id, k)
  {
    forall id, k
      ensures Reads(d, id, k) == Reads(d', id, k)
    {
      assert AccountAt(c, id.platform, id.account).Some? <==> AccountAt(b, id.platform, id.account).Some?;
      assert AccountAt(c', id.platform, id.account).Some? <==> AccountAt(b, id.platform, id.account).Some?;
      if k != m && k != n {
        assert Reads(d, id, k) == Reads(c, id, k) == Reads(b, id, k);
        assert Reads(d', id, k) == Reads(c', id, k) == Reads(b, id, k);
      }
    }
  }
}
