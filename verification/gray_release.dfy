/** Gray (canary) releases (internal/service/gray_release.go): at most one
    gray release per configuration and environment, the three rules that
    decide whether a client is in the cohort, and the ways a gray release
    ends — promotion to a full release or cancellation. */
module GrayRelease {
  import opened Wrappers
  import opened Text
  import opened Records
  import opened Errors
  import opened Db
  import Utf8
  import Fnv
  import IPv4
  import ConfigRepo
  import VersionRepo
  import ReleaseRepo

  // ---------------------------------------------------------------------------
  // Cohort rules
  // ---------------------------------------------------------------------------

  /** The client's bucket: its FNV-1a hash modulo 100. */
  function Bucket(clientId: string): (b: int)
    ensures 0 <= b < 100
  {
    (Fnv.Hash32(Utf8.Encode(clientId)) as int) % 100
  }

  /** matchPercentage */
  function MatchPercentage(clientId: string, percentage: int): (b: bool)
    ensures percentage <= 0 ==> !b
    ensures percentage >= 100 ==> b
  {
    if percentage <= 0 then false
    else if percentage >= 100 then true
    else Bucket(clientId) < percentage
  }

  /** A client in the cohort at some percentage stays in it at every larger
      percentage: raising the percentage only adds clients. */
  lemma PercentageMonotone(clientId: string, p: int, q: int)
    requires p <= q
    requires MatchPercentage(clientId, p)
    ensures MatchPercentage(clientId, q)
  {
  }

  /** Below 100 the cohort is exactly the clients whose bucket is under the
      percentage. */
  lemma PercentageIsBucket(clientId: string, percentage: int)
    requires 0 <= percentage <= 100
    ensures MatchPercentage(clientId, percentage) <==> Bucket(clientId) < percentage
  {
  }

  /** The client "a" hashes to 0xe40c292c, bucket 20. */
  lemma BucketOfA()
    ensures Bucket("a") == 20
    ensures !MatchPercentage("a", 20) && MatchPercentage("a", 21)
  {
    Fnv.TestVectors();
    var h := Fnv.Hash32(Utf8.Encode("a"));
    assert h == 0xe40c292c;
    assert h as int == 3826002220;
    assert Bucket("a") == 3826002220 % 100;
  }

  /** One allowed client id: equal, or a pattern ending in '*' whose stem
      starts the id. */
  predicate IdMatches(clientId: string, allowed: string) {
    allowed == clientId || (HasSuffix(allowed, "*") && HasPrefix(clientId, TrimSuffix(allowed, "*")))
  }

  /** matchClientID: the list is tried in order. */
  function MatchClientID(clientId: string, allowed: seq<string>): (b: bool)
    ensures b <==> exists i :: 0 <= i < |allowed| && IdMatches(clientId, allowed[i])
  {
    if |allowed| == 0 then false
    else if IdMatches(clientId, allowed[0]) then true
    else
      var b := MatchClientID(clientId, allowed[1..]);
      assert b ==> exists i :: 0 <= i < |allowed| && IdMatches(clientId, allowed[i]) by {
        if b {
          var i :| 0 <= i < |allowed| - 1 && IdMatches(clientId, allowed[1..][i]);
          assert allowed[i + 1] == allowed[1..][i];
        }
      }
      assert (exists i :: 0 <= i < |allowed| && IdMatches(clientId, allowed[i])) ==> b by {
        if exists i :: 0 <= i < |allowed| && IdMatches(clientId, allowed[i]) {
          var i :| 0 <= i < |allowed| && IdMatches(clientId, allowed[i]);
          assert i != 0;
          assert allowed[1..][i - 1] == allowed[i];
        }
      }
      b
  }

  /** A lone "*" admits every client. */
  lemma StarAdmitsAll(clientId: string, allowed: seq<string>)
    requires "*" in allowed
    ensures MatchClientID(clientId, allowed)
  {
    var i :| 0 <= i < |allowed| && allowed[i] == "*";
    assert TrimSuffix("*", "*") == "";
    assert IdMatches(clientId, allowed[i]);
  }

  /** A pattern admits exactly the ids that extend its stem. */
  lemma PatternAdmitsExtensions(stem: string, rest: string)
    ensures MatchClientID(stem + rest, [stem + "*"])
  {
    var p := stem + "*";
    assert p[|p| - 1..] == "*";
    assert TrimSuffix(p, "*") == stem;
    assert (stem + rest)[..|stem|] == stem;
    assert IdMatches(stem + rest, [p][0]);
  }

  /** One IP range entry: a CIDR block when it holds '/', otherwise the exact
      text of the client address. */
  predicate RangeMatches(clientIP: string, ip: IPv4.Addr, range: string) {
    if '/' in range then
      match IPv4.ParseCIDR(range)
      case None => false
      case Some(net) => IPv4.NetContains(net, ip)
    else range == clientIP
  }

  /** matchIPRange: the client address must parse; then any entry may match. */
  function MatchIPRange(clientIP: string, ranges: seq<string>): (b: bool)
    ensures b <==> (IPv4.ParseAddr(clientIP).Some?
      && exists i :: 0 <= i < |ranges| && RangeMatches(clientIP, IPv4.ParseAddr(clientIP).value, ranges[i]))
  {
    match IPv4.ParseAddr(clientIP)
    case None => false
    case Some(ip) => AnyRangeMatches(clientIP, ip, ranges)
  }

  function AnyRangeMatches(clientIP: string, ip: IPv4.Addr, ranges: seq<string>): (b: bool)
    ensures b <==> exists i :: 0 <= i < |ranges| && RangeMatches(clientIP, ip, ranges[i])
  {
    if |ranges| == 0 then false
    else if RangeMatches(clientIP, ip, ranges[0]) then true
    else
      var b := AnyRangeMatches(clientIP, ip, ranges[1..]);
      assert b ==> exists i :: 0 <= i < |ranges| && RangeMatches(clientIP, ip, ranges[i]) by {
        if b {
          var i :| 0 <= i < |ranges| - 1 && RangeMatches(clientIP, ip, ranges[1..][i]);
          assert ranges[i + 1] == ranges[1..][i];
        }
      }
      assert (exists i :: 0 <= i < |ranges| && RangeMatches(clientIP, ip, ranges[i])) ==> b by {
        if exists i :: 0 <= i < |ranges| && RangeMatches(clientIP, ip, ranges[i]) {
          var i :| 0 <= i < |ranges| && RangeMatches(clientIP, ip, ranges[i]);
          assert i != 0;
          assert ranges[1..][i - 1] == ranges[i];
        }
      }
      b
  }

  /** A client whose address does not parse is never in an IP cohort, not
      even when an entry spells its text exactly. */
  lemma UnparsedClientExcluded(clientIP: string, ranges: seq<string>)
    requires IPv4.ParseAddr(clientIP).None?
    ensures !MatchIPRange(clientIP, ranges)
  {
  }

  /** A parseable client matches its own address listed as a /32 block. */
  lemma HostBlockMatches(clientIP: string, net: string)
    requires IPv4.ParseAddr(clientIP).Some?
    requires IPv4.ParseCIDR(net) == Some(IPv4.Network(IPv4.ParseAddr(clientIP).value, 32))
    ensures MatchIPRange(clientIP, [net])
  {
    IPv4.ContainsOwnAddress(IPv4.ParseAddr(clientIP).value, 32);
    assert RangeMatches(clientIP, IPv4.ParseAddr(clientIP).value, [net][0]);
  }

  /** The rule kinds ShouldUseGrayRelease knows. */
  function InCohort(rules: GrayRules, clientId: string, clientIP: string): (b: bool)
    ensures rules.kind !in {"percentage", "client_id", "ip_range"} ==> !b
    ensures rules.kind == "percentage" ==> (b <==> MatchPercentage(clientId, rules.percentage))
    ensures rules.kind == "client_id" ==> (b <==> MatchClientID(clientId, rules.clientIds))
    ensures rules.kind == "ip_range" ==> (b <==> MatchIPRange(clientIP, rules.ipRanges))
  {
    if rules.kind == "percentage" then MatchPercentage(clientId, rules.percentage)
    else if rules.kind == "client_id" then MatchClientID(clientId, rules.clientIds)
    else if rules.kind == "ip_range" then MatchIPRange(clientIP, rules.ipRanges)
    else false
  }

  /** ShouldUseGrayRelease: the active gray release is returned exactly when
      its rules decode and put the client in the cohort. */
  function ShouldUse(db: Db, configId: int, env: string, clientId: string, clientIP: string)
    : (r: (bool, Option<Release>))
    ensures r.0 <==> r.1.Some?
    ensures r.1.Some? ==> r.1 == ReleaseRepo.GetActiveGrayRelease(db.releases, configId, env)
    ensures r.0 <==> var g := ReleaseRepo.GetActiveGrayRelease(db.releases, configId, env);
      g.Some? && g.value.grayRules.Some? && InCohort(g.value.grayRules.value, clientId, clientIP)
  {
    match ReleaseRepo.GetActiveGrayRelease(db.releases, configId, env)
    case None => (false, None)
    case Some(g) =>
      match g.grayRules
      case None => (false, None)
      case Some(rules) => if InCohort(rules, clientId, clientIP) then (true, Some(g)) else (false, None)
  }

  // ---------------------------------------------------------------------------
  // Lifecycle
  // ---------------------------------------------------------------------------

  datatype GrayRequest = GrayRequest(
    configId: int, environment: string, version: int,
    ruleType: string, percentage: int, clientIds: seq<string>, ipRanges: seq<string>)

  function GrayOf(c: Config, req: GrayRequest, v: int, author: string): Release {
    Release(0, c.projectId, req.configId, v, req.environment, Gray, GrayType,
            Some(GrayRules(req.ruleType, req.percentage, req.clientIds, req.ipRanges)),
            req.percentage, author, 0)
  }

  /** Create: refused while the environment has an active gray release;
      version 0 means the current version, which must be stored. */
  function Create(db: Db, req: GrayRequest, author: string, now: int): (o: Outcome<Release>)
    ensures o.result.Err? ==> o.db == db
    ensures ConfigRepo.GetByID(db.configs, req.configId).None? ==> o.result == Err(ConfigNotFound)
    ensures ConfigRepo.GetByID(db.configs, req.configId).Some?
      && ReleaseRepo.GetActiveGrayRelease(db.releases, req.configId, req.environment).Some?
      ==> o.result == Err(GrayReleaseActive)
    ensures o.result.Ok? ==>
      var c := ConfigRepo.GetByID(db.configs, req.configId).value;
      var v := if req.version == 0 then c.currentVersion else req.version;
      && ReleaseRepo.GetActiveGrayRelease(db.releases, req.configId, req.environment).None?
      && VersionRepo.GetByConfigAndVersion(db.versions, req.configId, v).Some?
      && (o.db, o.result.value) == InsertRelease(db, GrayOf(c, req, v, author), now)
  {
    match ConfigRepo.GetByID(db.configs, req.configId)
    case None => Outcome(db, Err(ConfigNotFound))
    case Some(c) =>
      if ReleaseRepo.GetActiveGrayRelease(db.releases, req.configId, req.environment).Some? then
        Outcome(db, Err(GrayReleaseActive))
      else
        var v := if req.version == 0 then c.currentVersion else req.version;
        if VersionRepo.GetByConfigAndVersion(db.versions, req.configId, v).None? then
          Outcome(db, Err(VersionNotFound))
        else
          var (db1, row) := InsertRelease(db, GrayOf(c, req, v, author), now);
          Outcome(db1, Ok(row))
  }

  /** Create never makes a second gray release for one environment. */
  lemma CreateKeepsGood(db: Db, req: GrayRequest, author: string, now: int)
    requires Good(db)
    ensures Good(Create(db, req, author, now).db)
  {
    var o := Create(db, req, author, now);
    if o.result.Ok? {
      var c := ConfigRepo.GetByID(db.configs, req.configId).value;
      var v := if req.version == 0 then c.currentVersion else req.version;
      InsertReleaseKeepsGood(db, GrayOf(c, req, v, author), now);
    }
  }

  /** After Create the new release is the environment's active gray release,
      and a 100% rule puts every client in its cohort. */
  lemma CreatedIsActive(db: Db, req: GrayRequest, author: string, now: int, clientId: string, clientIP: string)
    requires Create(db, req, author, now).result.Ok?
    ensures var o := Create(db, req, author, now);
      ReleaseRepo.GetActiveGrayRelease(o.db.releases, req.configId, req.environment) == Some(o.result.value)
    ensures var o := Create(db, req, author, now);
      req.ruleType == "percentage" && req.percentage >= 100 ==>
        ShouldUse(o.db, req.configId, req.environment, clientId, clientIP) == (true, Some(o.result.value))
  {
    var o := Create(db, req, author, now);
    var rs := o.db.releases;
    assert rs == db.releases + [o.result.value];
    assert rs[|db.releases|] == o.result.value;
    assert forall j :: 0 <= j < |db.releases| ==> rs[j] == db.releases[j];
    var g := ReleaseRepo.GetActiveGrayRelease(rs, req.configId, req.environment);
    var i :| 0 <= i < |rs| && rs[i] == g.value;
    assert i == |db.releases|;
  }

  /** The release with that id, provided it is in gray status. */
  function GrayById(db: Db, releaseId: int, notGray: Error): (r: Result<Release, Error>)
    ensures r.Ok? ==> r.value.status == Gray && Some(r.value) == ReleaseRepo.GetByID(db.releases, releaseId)
    ensures ReleaseRepo.GetByID(db.releases, releaseId).None? ==> r == Err(GrayReleaseNotFound)
    ensures ReleaseRepo.GetByID(db.releases, releaseId).Some? ==>
      (r.Err? <==> ReleaseRepo.GetByID(db.releases, releaseId).value.status != Gray)
    ensures ReleaseRepo.GetByID(db.releases, releaseId).Some? && r.Err? ==> r.error == notGray
  {
    match ReleaseRepo.GetByID(db.releases, releaseId)
    case None => Err(GrayReleaseNotFound)
    case Some(x) => if x.status != Gray then Err(notGray) else Ok(x)
  }

  /** Promote: the gray release becomes "promoted" and a full release of the
      same version follows. */
  function Promote(db: Db, releaseId: int, author: string, now: int): (o: Outcome<Release>)
    ensures o.result.Err? ==> o.db == db
    ensures GrayById(db, releaseId, OnlyGrayPromotable).Err? <==> o.result.Err?
    ensures o.result.Err? ==> o.result.error == GrayById(db, releaseId, OnlyGrayPromotable).error
    ensures o.result.Ok? ==>
      var g := GrayById(db, releaseId, OnlyGrayPromotable).value;
      var db1 := db.(releases := ReleaseRepo.Update(db.releases, g.(status := Promoted)));
      (o.db, o.result.value) == InsertRelease(db1, Release(0, g.projectId, g.configId, g.version, g.environment,
                                                          Released, Full, None, 0, author, 0), now)
  {
    match GrayById(db, releaseId, OnlyGrayPromotable)
    case Err(e) => Outcome(db, Err(e))
    case Ok(g) =>
      var db1 := db.(releases := ReleaseRepo.Update(db.releases, g.(status := Promoted)));
      var (db2, row) := InsertRelease(db1, Release(0, g.projectId, g.configId, g.version, g.environment,
                                                   Released, Full, None, 0, author, 0), now);
      Outcome(db2, Ok(row))
  }

  /** Cancel: the gray release becomes "cancelled". */
  function Cancel(db: Db, releaseId: int): (o: Outcome<()>)
    ensures o.result.Err? ==> o.db == db
    ensures GrayById(db, releaseId, OnlyGrayCancellable).Err? <==> o.result.Err?
    ensures o.result.Err? ==> o.result.error == GrayById(db, releaseId, OnlyGrayCancellable).error
    ensures o.result.Ok? ==>
      var g := GrayById(db, releaseId, OnlyGrayCancellable).value;
      o.db == db.(releases := ReleaseRepo.Update(db.releases, g.(status := Cancelled)))
  {
    match GrayById(db, releaseId, OnlyGrayCancellable)
    case Err(e) => Outcome(db, Err(e))
    case Ok(g) => Outcome(db.(releases := ReleaseRepo.Update(db.releases, g.(status := Cancelled))), Ok(()))
  }

  /** The rules after UpdatePercentage: the decoded rules with the new
      percentage (rules that do not decode start from the zero value). */
  function WithPercentage(rules: Option<GrayRules>, percentage: int): (r: GrayRules)
    ensures r.percentage == percentage
    ensures rules.Some? ==> r == rules.value.(percentage := percentage)
  {
    match rules
    case None => GrayRules("", percentage, [], [])
    case Some(g) => g.(percentage := percentage)
  }

  /** UpdatePercentage: only the rules' percentage and the percentage column
      change. */
  function UpdatePercentage(db: Db, releaseId: int, percentage: int): (o: Outcome<()>)
    ensures o.result.Err? ==> o.db == db
    ensures GrayById(db, releaseId, OnlyGrayUpdatable).Err? <==> o.result.Err?
    ensures o.result.Err? ==> o.result.error == GrayById(db, releaseId, OnlyGrayUpdatable).error
    ensures o.result.Ok? ==>
      var g := GrayById(db, releaseId, OnlyGrayUpdatable).value;
      o.db == db.(releases := ReleaseRepo.Update(db.releases,
        g.(grayRules := Some(WithPercentage(g.grayRules, percentage)), grayPercentage := percentage)))
  {
    match GrayById(db, releaseId, OnlyGrayUpdatable)
    case Err(e) => Outcome(db, Err(e))
    case Ok(g) =>
      var g' := g.(grayRules := Some(WithPercentage(g.grayRules, percentage)), grayPercentage := percentage);
      Outcome(db.(releases := ReleaseRepo.Update(db.releases, g')), Ok(()))
  }

  /** Where a release id sits in the table. */
  lemma IndexOfRelease(db: Db, releaseId: int) returns (k: nat)
    requires ReleaseKeys(db)
    requires ReleaseRepo.GetByID(db.releases, releaseId).Some?
    ensures k < |db.releases| && db.releases[k] == ReleaseRepo.GetByID(db.releases, releaseId).value
    ensures db.releases[k].id == releaseId
  {
    var x := ReleaseRepo.GetByID(db.releases, releaseId).value;
    k :| 0 <= k < |db.releases| && db.releases[k] == x;
  }

  lemma PromoteKeepsGood(db: Db, releaseId: int, author: string, now: int)
    requires Good(db)
    ensures Good(Promote(db, releaseId, author, now).db)
  {
    var o := Promote(db, releaseId, author, now);
    if o.result.Ok? {
      var g := GrayById(db, releaseId, OnlyGrayPromotable).value;
      var k := IndexOfRelease(db, releaseId);
      ReleaseUpdateKeepsGood(db, k, g.(status := Promoted));
      var db1 := db.(releases := ReleaseRepo.Update(db.releases, g.(status := Promoted)));
      InsertReleaseKeepsGood(db1, Release(0, g.projectId, g.configId, g.version, g.environment,
                                          Released, Full, None, 0, author, 0), now);
    }
  }

  lemma CancelKeepsGood(db: Db, releaseId: int)
    requires Good(db)
    ensures Good(Cancel(db, releaseId).db)
  {
    if Cancel(db, releaseId).result.Ok? {
      var g := GrayById(db, releaseId, OnlyGrayCancellable).value;
      var k := IndexOfRelease(db, releaseId);
      ReleaseUpdateKeepsGood(db, k, g.(status := Cancelled));
    }
  }

  lemma UpdatePercentageKeepsGood(db: Db, releaseId: int, percentage: int)
    requires Good(db)
    ensures Good(UpdatePercentage(db, releaseId, percentage).db)
  {
    if UpdatePercentage(db, releaseId, percentage).result.Ok? {
      var g := GrayById(db, releaseId, OnlyGrayUpdatable).value;
      var k := IndexOfRelease(db, releaseId);
      ReleaseUpdateKeepsGood(db, k, g.(grayRules := Some(WithPercentage(g.grayRules, percentage)), grayPercentage := percentage));
    }
  }

  /** Cancelling ends the gray phase: the environment has no active gray
      release afterwards. */
  lemma CancelEndsGray(db: Db, releaseId: int)
    requires Good(db)
    requires Cancel(db, releaseId).result.Ok?
    ensures var g := GrayById(db, releaseId, OnlyGrayCancellable).value;
      ReleaseRepo.GetActiveGrayRelease(Cancel(db, releaseId).db.releases, g.configId, g.environment).None?
  {
    var g := GrayById(db, releaseId, OnlyGrayCancellable).value;
    var k := IndexOfRelease(db, releaseId);
    OnlyGrayGone(db, k, g.(status := Cancelled));
  }

  /** Promoting ends the gray phase too: the environment is left with no
      gray release. */
  lemma PromoteEndsGray(db: Db, releaseId: int, author: string, now: int)
    requires Good(db)
    requires Promote(db, releaseId, author, now).result.Ok?
    ensures var o := Promote(db, releaseId, author, now);
      var g := GrayById(db, releaseId, OnlyGrayPromotable).value;
      ReleaseRepo.GetActiveGrayRelease(o.db.releases, g.configId, g.environment).None?
  {
    var o := Promote(db, releaseId, author, now);
    var g := GrayById(db, releaseId, OnlyGrayPromotable).value;
    var k := IndexOfRelease(db, releaseId);
    var marked := ReleaseRepo.Update(db.releases, g.(status := Promoted));
    OnlyGrayGone(db, k, g.(status := Promoted));
    var row := o.result.value;
    assert o.db.releases == marked + [row];
    assert o.db.releases[|marked|] == row;
    assert !ReleaseRepo.ActiveGray(row, g.configId, g.environment);
  }

  /** The full release a promotion adds carries the gray version, and is what
      the environment serves once the clock has moved on. */
  lemma PromoteServesGrayVersion(db: Db, releaseId: int, author: string, now: int)
    requires ReleaseKeys(db)
    requires Promote(db, releaseId, author, now).result.Ok?
    requires forall i :: 0 <= i < |db.releases| ==> db.releases[i].releasedAt < now
    ensures var o := Promote(db, releaseId, author, now);
      var g := GrayById(db, releaseId, OnlyGrayPromotable).value;
      && ReleaseRepo.GetByConfigAndEnv(o.db.releases, g.configId, g.environment) == Some(o.result.value)
      && o.result.value.version == g.version
  {
    var o := Promote(db, releaseId, author, now);
    var g := GrayById(db, releaseId, OnlyGrayPromotable).value;
    var k := IndexOfRelease(db, releaseId);
    var marked := ReleaseRepo.Update(db.releases, g.(status := Promoted));
    ReleaseRepo.UpdateKeepsOlder(db.releases, g.(status := Promoted), now);
    var row := o.result.value;
    assert o.db.releases == marked + [row];
    ReleaseRepo.NewestServed(marked, row);
  }

  /** Ending the only gray release of an environment leaves it with none. */
  lemma OnlyGrayGone(db: Db, k: nat, x: Release)
    requires Good(db)
    requires k < |db.releases| && db.releases[k].status == Gray
    requires x.id == db.releases[k].id && x.status != Gray
    requires x.configId == db.releases[k].configId && x.environment == db.releases[k].environment
    ensures ReleaseRepo.GetActiveGrayRelease(ReleaseRepo.Update(db.releases, x), x.configId, x.environment).None?
  {
    var rs := db.releases;
    var rs' := ReleaseRepo.Update(rs, x);
    forall i | 0 <= i < |rs'| ensures !ReleaseRepo.ActiveGray(rs'[i], x.configId, x.environment) {
      if i != k {
        if i < k { assert rs[i].id < rs[k].id; }
        if i > k { assert rs[k].id < rs[i].id; }
        assert rs'[i] == rs[i];
      }
    }
  }

  /** GetGrayReleaseVersion: the stored version the gray release names. */
  function GetGrayReleaseVersion(db: Db, x: Release): (r: Option<ConfigVersion>)
    ensures r.Some? ==> r.value in db.versions && r.value.configId == x.configId && r.value.version == x.version
    ensures r.None? <==> forall i :: 0 <= i < |db.versions| ==>
      !(db.versions[i].configId == x.configId && db.versions[i].version == x.version)
  {
    VersionRepo.GetByConfigAndVersion(db.versions, x.configId, x.version)
  }
}
