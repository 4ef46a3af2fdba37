/** Break-glass over whole histories: calls, failures, restarts and crashes. */
module BreakglassHistory {
  import opened Wrappers
  import opened Basics
  import opened ByteLayout
  import opened SigningLayout
  import opened Breakglass

  /** One API call, or a restart.  Each call brings the operator registry of its moment.  A
      crash comes between the disk step and the memory step of a call and is followed by a
      restart at the given instant.  A restart opens the state, with the default cap or with
      the given one. */
  datatype Event =
    | Check(now: Time, removeOk: bool)
    | Activate(now: Time, reg: Registry, act: Activation, id: Uuid, writeOk: bool, auditOk: bool)
    | Deactivate(now: Time, reg: Registry, fp: Text, sig: Bytes, id: Uuid, removeOk: bool, auditOk: bool)
    | Restart(now: Time, removeOk: bool, limit: Option<int>)
    | CrashInActivate(now: Time, reg: Registry, act: Activation, id: Uuid,
                      again: Time, removeOk: bool, limit: Option<int>)
    | CrashInDeactivate(now: Time, reg: Registry, fp: Text, sig: Bytes, id: Uuid,
                        again: Time, removeOk: bool, limit: Option<int>)
  {
    predicate Restarts() {
      Restart? || CrashInActivate? || CrashInDeactivate?
    }

    function End(): Time {
      if CrashInActivate? || CrashInDeactivate? then again else now
    }
  }

  /** What an event means for whether break-glass is in effect; an opening remembers the cap it
      was admitted under. */
  datatype Effect = Unchanged | Opens(id: Uuid, at: Time, expiresAt: Time, cap: int) | Closes

  /** open, then with_max_duration if a limit is configured. */
  function Reopened(s: Store, now: Time, removeOk: bool, limit: Option<int>): Store {
    var o := Opened(s, now, removeOk);
    if limit.Some? then o.(cap := limit.value) else o
  }

  function NextStore(s: Store, e: Event): Store {
    match e
    case Check(now, removeOk) => Checked(s, now, removeOk)
    case Activate(now, reg, act, id, writeOk, auditOk) => Activated(reg, s, act, id, now, writeOk, auditOk).0
    case Deactivate(now, reg, fp, sig, id, removeOk, auditOk) => Deactivated(reg, s, fp, sig, id, removeOk, auditOk).0
    case Restart(now, removeOk, limit) => Reopened(s, now, removeOk, limit)
    case CrashInActivate(now, reg, act, id, again, removeOk, limit) =>
      Reopened(if AdmissionError(reg, act, s.cache, s.cap, now).None? then Persisted(s, Admitted(act, id, now)) else s,
               again, removeOk, limit)
    case CrashInDeactivate(now, reg, fp, sig, id, again, removeOk, limit) =>
      Reopened(if DeactivationError(reg, s, fp, sig, id, true).None? then Removed(s) else s, again, removeOk, limit)
  }

  /** Read off the results alone: an admitted activation opens even when its audit event fails,
      and a crashed call takes effect through the disk. */
  function EffectOf(s: Store, e: Event): Effect {
    match e
    case Check(_, _) => Unchanged
    case Activate(now, reg, act, id, writeOk, auditOk) =>
      var r := Activated(reg, s, act, id, now, writeOk, auditOk).1;
      if r.Ok? || r.error == Audit then Opens(id, now, act.expiresAt, s.cap) else Unchanged
    case Deactivate(now, reg, fp, sig, id, removeOk, auditOk) =>
      var r := Deactivated(reg, s, fp, sig, id, removeOk, auditOk).1;
      if r.Ok? || r.error == Audit then Closes else Unchanged
    case Restart(_, _, _) => if s.persistent then Unchanged else Closes
    case CrashInActivate(now, reg, act, id, again, _, _) =>
      if !s.persistent then Closes
      else if AdmissionError(reg, act, s.cache, s.cap, now).None? then Opens(id, now, act.expiresAt, s.cap)
      else Unchanged
    case CrashInDeactivate(_, reg, fp, sig, id, _, _, _) =>
      if !s.persistent || DeactivationError(reg, s, fp, sig, id, true).None? then Closes else Unchanged
  }

  // ----- Histories -----

  function Run(s: Store, h: seq<Event>): Store {
    if h == [] then s else NextStore(Run(s, h[..|h| - 1]), h[|h| - 1])
  }

  /** The last event that opened or closed; Closes when there is none. */
  function LastEffect(s: Store, h: seq<Event>): Effect {
    if h == [] then Closes
    else
      var e := EffectOf(Run(s, h[..|h| - 1]), h[|h| - 1]);
      if e.Unchanged? then LastEffect(s, h[..|h| - 1]) else e
  }

  /** The clock never goes back: each event starts at or after the end of the one before. */
  ghost predicate ClockOk(h: seq<Event>, start: Time) {
    && (forall i :: 0 <= i < |h| ==> start <= h[i].now <= h[i].End())
    && (forall i, j :: 0 <= i < j < |h| ==> h[i].End() <= h[j].now)
  }

  function Fresh(persistent: bool, cap: int): Store {
    Store(None, None, persistent, cap)
  }

  /** Cache and disk agree on what is unexpired, that is what the last effect says, and the
      last effect stayed within the cap it was admitted under. */
  ghost predicate Consistent(s: Store, last: Effect, t: Time) {
    && (s.persistent ==> Live(s.cache, t) == Live(s.disk, t))
    && (Live(s.cache, t).Some? <==> last.Opens? && last.expiresAt > t)
    && (Live(s.cache, t).Some? ==> Matches(s.cache.value, last))
    && (last.Opens? ==> last.at < last.expiresAt <= last.at + last.cap)
  }

  predicate Matches(r: Activation, e: Effect) {
    e.Opens? && r.id == e.id && r.activatedAt == e.at && r.expiresAt == e.expiresAt
  }

  lemma ConsistentLater(s: Store, last: Effect, t: Time, u: Time)
    requires Consistent(s, last, t) && t <= u
    ensures Consistent(s, last, u)
  {
  }

  function Resulting(e: Effect, last: Effect): Effect {
    if e.Unchanged? then last else e
  }

  lemma ReopenedConsistent(s: Store, last: Effect, t: Time, removeOk: bool, limit: Option<int>)
    requires s.persistent && (last.Opens? ==> last.at < last.expiresAt <= last.at + last.cap)
    requires Live(s.disk, t).Some? <==> last.Opens? && last.expiresAt > t
    requires Live(s.disk, t).Some? ==> Matches(s.disk.value, last)
    ensures Consistent(Reopened(s, t, removeOk, limit), last, t)
  {
  }

  lemma AdmittedRecord(reg: Registry, act: Activation, cache: Option<Activation>, cap: int, now: Time, id: Uuid)
    requires AdmissionError(reg, act, cache, cap, now).None?
    ensures Matches(Admitted(act, id, now), Opens(id, now, act.expiresAt, cap))
    ensures now < act.expiresAt <= now + cap && Live(cache, now).None?
  {
    hide LookupOperator, SignatureOk, SignedBytes, Sort, Sanitised;
  }

  /** Every event keeps consistency. */
  lemma ConsistentStep(s: Store, last: Effect, e: Event)
    requires e.now <= e.End() && Consistent(s, last, e.now)
    ensures Consistent(NextStore(s, e), Resulting(EffectOf(s, e), last), e.End())
  {
    hide AdmissionError, DeactivationError, Admitted;
    match e
    case Check(_, _) =>
    case Activate(_, _, _, _, _, _) => ConsistentActivate(s, last, e);
    case Deactivate(now, reg, fp, sig, id, removeOk, _) =>
      DeactivationRefusal(reg, s, fp, sig, id, removeOk);
    case Restart(_, _, _) =>
    case CrashInActivate(_, _, _, _, _, _, _) => ConsistentCrash(s, last, e);
    case CrashInDeactivate(now, reg, fp, sig, id, again, removeOk, limit) =>
      ConsistentLater(s, last, now, again);
      if s.persistent {
        if DeactivationError(reg, s, fp, sig, id, true).None? {
          ReopenedConsistent(Removed(s), Closes, again, removeOk, limit);
        } else {
          ReopenedConsistent(s, last, again, removeOk, limit);
        }
      }
  }

  lemma ConsistentActivate(s: Store, last: Effect, e: Event)
    requires e.Activate? && Consistent(s, last, e.now)
    ensures Consistent(NextStore(s, e), Resulting(EffectOf(s, e), last), e.now)
  {
    hide AdmissionError, Admitted;
    if AdmissionError(e.reg, e.act, s.cache, s.cap, e.now).None? {
      AdmittedRecord(e.reg, e.act, s.cache, s.cap, e.now, e.id);
    } else {
      RefusalIsNotAudit(e.reg, e.act, s.cache, s.cap, e.now);
    }
  }

  lemma ConsistentCrash(s: Store, last: Effect, e: Event)
    requires e.CrashInActivate? && e.now <= e.again && Consistent(s, last, e.now)
    ensures Consistent(NextStore(s, e), Resulting(EffectOf(s, e), last), e.again)
  {
    hide AdmissionError, Admitted;
    ConsistentLater(s, last, e.now, e.again);
    if s.persistent {
      if AdmissionError(e.reg, e.act, s.cache, s.cap, e.now).None? {
        AdmittedRecord(e.reg, e.act, s.cache, s.cap, e.now, e.id);
        ReopenedConsistent(Persisted(s, Admitted(e.act, e.id, e.now)), Opens(e.id, e.now, e.act.expiresAt, s.cap),
                           e.again, e.removeOk, e.limit);
      } else {
        ReopenedConsistent(s, last, e.again, e.removeOk, e.limit);
      }
    }
  }

  lemma RefusalIsNotAudit(reg: Registry, act: Activation, cache: Option<Activation>, cap: int, now: Time)
    ensures AdmissionError(reg, act, cache, cap, now) != Some(Audit)
  {
    hide LookupOperator, SignatureOk, SignedBytes, Sort, Sanitised;
  }

  lemma DeactivationRefusal(reg: Registry, s: Store, fp: Text, sig: Bytes, id: Uuid, removeOk: bool)
    ensures DeactivationError(reg, s, fp, sig, id, removeOk) != Some(Audit)
  {
    hide LookupOperator, SignatureOk;
  }

  lemma {:induction false} RunConsistent(persistent: bool, cap: int, h: seq<Event>, start: Time, t: Time)
    requires ClockOk(h, start) && start <= t && (h != [] ==> h[|h| - 1].End() <= t)
    ensures var s := Fresh(persistent, cap);
            Consistent(Run(s, h), LastEffect(s, h), t)
    decreases |h|
  {
    hide NextStore, EffectOf;
    var s := Fresh(persistent, cap);
    if h == [] {
      assert Run(s, h) == s && LastEffect(s, h) == Closes;
    } else {
      var p, e := h[..|h| - 1], h[|h| - 1];
      RunConsistent(persistent, cap, p, start, e.now);
      ConsistentStep(Run(s, p), LastEffect(s, p), e);
      ConsistentLater(Run(s, h), LastEffect(s, h), e.End(), t);
    }
  }

  /** After every history, with the registry and the cap changing as they may, check reports
      Active(id, expiry) exactly when the last effective event opened that activation and its
      expiry is still ahead; cache and disk show the same unexpired record; and the expiry is
      within the cap in force when the activation was admitted. */
  lemma CheckReportsHistory(persistent: bool, cap: int, h: seq<Event>, start: Time, now: Time)
    requires ClockOk(h, start) && start <= now && (h != [] ==> h[|h| - 1].End() <= now)
    ensures var s := Fresh(persistent, cap);
            var end, last := Run(s, h), LastEffect(s, h);
            && StatusAt(end, now) ==
               (if last.Opens? && last.expiresAt > now then Active(last.id, last.expiresAt) else Inactive)
            && (persistent ==> Live(end.cache, now) == Live(end.disk, now))
            && (last.Opens? ==> last.at < last.expiresAt <= last.at + last.cap)
            && (Live(end.cache, now).Some? ==> Matches(end.cache.value, last))
  {
    hide NextStore, EffectOf, LastEffect;
    RunConsistent(persistent, cap, h, start, now);
    SamePath(Fresh(persistent, cap), h);
  }

  lemma {:induction false} SamePath(s: Store, h: seq<Event>)
    ensures Run(s, h).persistent == s.persistent
    decreases |h|
  {
    hide AdmissionError, DeactivationError, Admitted;
    if h == [] {
      assert Run(s, h) == s;
    } else {
      SamePath(s, h[..|h| - 1]);
    }
  }

  // ----- Caps of every stored record -----

  ghost predicate Within(r: Option<Activation>, bound: int) {
    r.Some? ==> r.value.expiresAt <= r.value.activatedAt + bound
  }

  /** The cap a restart leaves in force. */
  function CapAfter(e: Event): int
    requires e.Restarts()
  {
    if e.limit.Some? then e.limit.value else DEFAULT_MAX_DURATION
  }

  /** Every record in the cache or on disk, expired ones included, ends within the largest cap
      that was ever in force. */
  lemma {:induction false} RecordsWithinCaps(persistent: bool, cap: int, h: seq<Event>, bound: int)
    requires cap <= bound && forall i :: 0 <= i < |h| && h[i].Restarts() ==> CapAfter(h[i]) <= bound
    ensures var end := Run(Fresh(persistent, cap), h);
            Within(end.cache, bound) && Within(end.disk, bound) && end.cap <= bound
    decreases |h|
  {
    hide NextStore;
    var s := Fresh(persistent, cap);
    if h == [] {
      assert Run(s, h) == s;
    } else {
      RecordsWithinCaps(persistent, cap, h[..|h| - 1], bound);
      WithinStep(Run(s, h[..|h| - 1]), h[|h| - 1], bound);
    }
  }

  lemma WithinStep(s: Store, e: Event, bound: int)
    requires Within(s.cache, bound) && Within(s.disk, bound) && s.cap <= bound
    requires e.Restarts() ==> CapAfter(e) <= bound
    ensures var n := NextStore(s, e);
            Within(n.cache, bound) && Within(n.disk, bound) && n.cap <= bound
  {
    hide AdmissionError, DeactivationError, Admitted;
    if (e.Activate? || e.CrashInActivate?) && AdmissionError(e.reg, e.act, s.cache, s.cap, e.now).None? {
      AdmittedRecord(e.reg, e.act, s.cache, s.cap, e.now, e.id);
    }
  }

  // ----- What an admitted record proves -----

  lemma SanitisedTwice(s: Text)
    ensures Sanitised(Sanitised(s)) == Sanitised(s)
  {
  }

  /** Two distinct operators are stored as signers, and their signatures, in one of the two
      pairings, verify over the bytes recomputed from the record. */
  ghost predicate Reverifies(reg: Registry, rec: Activation) {
    && |rec.activatedBy| == 2 && 0 < |rec.justification| <= MAX_JUSTIFICATION_BYTES
    && Sanitised(rec.justification) == rec.justification
    && var o := LookupOperator(rec.activatedBy[0], reg.operators);
       var p := LookupOperator(rec.activatedBy[1], reg.operators);
       && o.Some? && p.Some? && o.value.fingerprint != p.value.fingerprint
       && (BothSigned(reg, rec, o.value, p.value) || BothSigned(reg, rec, p.value, o.value))
  }

  ghost predicate BothSigned(reg: Registry, rec: Activation, first: Operator, second: Operator) {
    && SignatureOk(reg, first, rec.signature1, SignedBytes(rec))
    && SignatureOk(reg, second, rec.signature2, SignedBytes(rec))
  }

  /** The bytes recomputed from the stored record, whose signers were sorted and whose
      justification was sanitised, are the bytes that were signed. */
  lemma RecordReverifies(reg: Registry, act: Activation, cache: Option<Activation>, cap: int, now: Time, id: Uuid)
    requires AdmissionError(reg, act, cache, cap, now).None?
    ensures Reverifies(reg, Admitted(act, id, now))
  {
    hide LookupOperator, SignatureOk, Sort, Le;
    var rec := Admitted(act, id, now);
    SanitisedTwice(act.justification);
    SortCanonical(act.activatedBy, act.activatedBy);
    SortOfTwo(act.activatedBy);
    assert SignedBytes(rec) == SignedBytes(act.(justification := Sanitised(act.justification)));
  }

  /** The event is an activation, crashed or not, that passes every check in store s. */
  predicate Admits(s: Store, e: Event) {
    (e.Activate? || e.CrashInActivate?) && AdmissionError(e.reg, e.act, s.cache, s.cap, e.now).None?
  }

  predicate Holds(s: Store, rec: Activation) {
    s.cache == Some(rec) || s.disk == Some(rec)
  }

  lemma HoldsStep(s: Store, e: Event, rec: Activation)
    requires Holds(NextStore(s, e), rec)
    ensures Holds(s, rec) || (Admits(s, e) && rec == Admitted(e.act, e.id, e.now))
  {
    hide AdmissionError, DeactivationError, Admitted;
  }

  /** Whatever the cache or the disk holds after any history was admitted by an event of that
      history, and still verifies under the registry of that event. */
  lemma {:induction false} StoredRecordReverifies(persistent: bool, cap: int, h: seq<Event>, rec: Activation)
    returns (k: nat)
    requires Holds(Run(Fresh(persistent, cap), h), rec)
    ensures k < |h| && Admits(Run(Fresh(persistent, cap), h[..k]), h[k])
    ensures rec == Admitted(h[k].act, h[k].id, h[k].now) && Reverifies(h[k].reg, rec)
    decreases |h|
  {
    hide NextStore, AdmissionError, Admitted, Reverifies;
    var s := Fresh(persistent, cap);
    if h == [] {
      assert false;
    } else {
      var n := |h| - 1;
      var p, e := h[..n], h[n];
      HoldsStep(Run(s, p), e, rec);
      if Holds(Run(s, p), rec) {
        k := StoredRecordReverifies(persistent, cap, p, rec);
        assert p[..k] == h[..k];
      } else {
        k := n;
        RecordReverifies(e.reg, e.act, Run(s, p).cache, Run(s, p).cap, e.now, e.id);
      }
    }
  }

  // ----- "On error, the on-disk file is unchanged" -----

  /** The documented promise holds for a failing call exactly when the failure is not a refused
      audit event after the persist step. */
  lemma ErrorLeavesDiskIff(reg: Registry, s: Store, act: Activation, id: Uuid, now: Time, writeOk: bool, auditOk: bool)
    requires Activated(reg, s, act, id, now, writeOk, auditOk).1.Err?
    requires s.persistent ==> Live(s.cache, now) == Live(s.disk, now)
    ensures Activated(reg, s, act, id, now, writeOk, auditOk).0.disk == s.disk <==>
            !(s.persistent && AdmissionError(reg, act, s.cache, s.cap, now).None? && writeOk && !auditOk)
  {
    hide AdmissionError, Admitted;
    if AdmissionError(reg, act, s.cache, s.cap, now).None? {
      AdmittedRecord(reg, act, s.cache, s.cap, now, id);
    }
  }

  /** An audit sink that refuses leaves the new record on disk and in effect. */
  lemma AuditFailureLeavesRecord()
    ensures var reg := Registry([Operator([97], []), Operator([98], [])], (_, _, _) => true);
            var sig: Bytes := seq(64, _ => 0);
            var act := Activation([], [120], [[97], [98]], 0, NANOS, sig, sig);
            var r := Activated(reg, Fresh(true, DEFAULT_MAX_DURATION), act, [], 0, true, false);
            r.1 == Err(Audit) && r.0.disk.Some? && StatusAt(r.0, 0).Active?
  {
    hide SignedBytes, Sort;
    var ops := [Operator([97], []), Operator([98], [])];
    assert LookupOperator([97], ops) == Some(ops[0]) by { assert EqIgnoreAsciiCase(ops[0].fingerprint, [97]); }
    assert LookupOperator([98], ops) == Some(ops[1]) by {
      assert !EqIgnoreAsciiCase(ops[0].fingerprint, [98]) by { assert AsciiLower([97][0]) != AsciiLower([98][0]); }
      assert EqIgnoreAsciiCase(ops[1..][0].fingerprint, [98]);
    }
  }

  // ----- How break-glass ends -----

  /** The event deactivates the cached activation, over the signature of a registered operator on
      that activation's own bytes. */
  ghost predicate SignedOff(s: Store, e: Event) {
    && (e.Deactivate? || e.CrashInDeactivate?) && s.cache.Some? && s.cache.value.id == e.id
    && exists op :: op in e.reg.operators && EqIgnoreAsciiCase(op.fingerprint, e.fp)
                    && SignatureOk(e.reg, op, e.sig, DeactivationBytes(e.id, op.fingerprint))
  }

  /** An event closes only when it signs off, or restarts a state that is not persisted. */
  lemma ClosesIs(s: Store, e: Event)
    requires EffectOf(s, e).Closes?
    ensures SignedOff(s, e) || (e.Restarts() && !s.persistent)
  {
    hide SignatureOk, DeactivationBytes, EqIgnoreAsciiCase, AdmissionError, Admitted;
  }

  /** The event at k closes the activation with this id. */
  ghost predicate EndsAt(s: Store, h: seq<Event>, k: nat, id: Uuid)
    requires k < |h|
  {
    (SignedOff(Run(s, h[..k]), h[k]) && h[k].id == id) || (h[k].Restarts() && !s.persistent)
  }

  /** From the event that opened an activation until its expiry, either it is the last effect or
      one of the events since has closed it. */
  lemma {:induction false} OpenUntilClosed(persistent: bool, cap: int, h: seq<Event>, start: Time, now: Time, i: nat)
    requires ClockOk(h, start) && i < |h| && h[|h| - 1].End() <= now
    requires var e := EffectOf(Run(Fresh(persistent, cap), h[..i]), h[i]);
             e.Opens? && e.expiresAt > now
    ensures var s := Fresh(persistent, cap);
            var e := EffectOf(Run(s, h[..i]), h[i]);
            LastEffect(s, h) == e || exists k :: i < k < |h| && EndsAt(s, h, k, e.id)
    decreases |h|
  {
    hide NextStore, EffectOf, Run, SignedOff;
    var s := Fresh(persistent, cap);
    var n := |h| - 1;
    var p, last := h[..n], h[n];
    var opening := EffectOf(Run(s, h[..i]), h[i]);
    if i == n {
      assert LastEffect(s, h) == opening;
    } else {
      assert p[..i] == h[..i];
      OpenUntilClosed(persistent, cap, p, start, now, i);
      if k :| i < k < |p| && EndsAt(s, p, k, opening.id) {
        assert p[..k] == h[..k];
        assert EndsAt(s, h, k, opening.id);
      } else {
        NotReopened(persistent, cap, h, start);
        if EffectOf(Run(s, p), last).Closes? {
          ClosesIs(Run(s, p), last);
          SamePath(s, p);
          assert EndsAt(s, h, n, opening.id) by { SignedOffId(persistent, cap, h, start, opening); }
        }
      }
    }
  }

  /** While an activation is in effect no event opens another. */
  lemma NotReopened(persistent: bool, cap: int, h: seq<Event>, start: Time)
    requires ClockOk(h, start) && h != []
    requires var last := LastEffect(Fresh(persistent, cap), h[..|h| - 1]);
             last.Opens? && last.expiresAt > h[|h| - 1].End()
    ensures !EffectOf(Run(Fresh(persistent, cap), h[..|h| - 1]), h[|h| - 1]).Opens?
  {
    hide AdmissionError, DeactivationError, Admitted, Run, LastEffect;
    var s, p, e := Fresh(persistent, cap), h[..|h| - 1], h[|h| - 1];
    RunConsistent(persistent, cap, p, start, e.now);
    if Admits(Run(s, p), e) {
      AdmittedRecord(e.reg, e.act, Run(s, p).cache, Run(s, p).cap, e.now, e.id);
      assert false;
    }
    if e.Activate? {
      RefusalIsNotAudit(e.reg, e.act, Run(s, p).cache, Run(s, p).cap, e.now);
    }
  }

  /** A signed-off activation is the one in effect. */
  lemma SignedOffId(persistent: bool, cap: int, h: seq<Event>, start: Time, opening: Effect)
    requires ClockOk(h, start) && h != [] && opening == LastEffect(Fresh(persistent, cap), h[..|h| - 1])
    requires opening.Opens? && opening.expiresAt > h[|h| - 1].now
    ensures SignedOff(Run(Fresh(persistent, cap), h[..|h| - 1]), h[|h| - 1]) ==> h[|h| - 1].id == opening.id
  {
    hide Run, LastEffect;
    RunConsistent(persistent, cap, h[..|h| - 1], start, h[|h| - 1].now);
  }

  /** Over every history, an activation that is not reported before its expiry was ended, after it
      was opened, by a signed deactivation of exactly that activation, or by a restart of a state
      that is not persisted. */
  lemma EndsOnlySignedOff(persistent: bool, cap: int, h: seq<Event>, start: Time, now: Time, i: nat)
    requires ClockOk(h, start) && i < |h| && h[|h| - 1].End() <= now
    requires var e := EffectOf(Run(Fresh(persistent, cap), h[..i]), h[i]);
             && e.Opens? && e.expiresAt > now
             && StatusAt(Run(Fresh(persistent, cap), h), now) != Active(e.id, e.expiresAt)
    ensures var s := Fresh(persistent, cap);
            exists k :: i < k < |h| && EndsAt(s, h, k, EffectOf(Run(s, h[..i]), h[i]).id)
  {
    hide Run, LastEffect, EffectOf, EndsAt;
    assert start <= h[|h| - 1].now <= now;
    OpenUntilClosed(persistent, cap, h, start, now, i);
    CheckReportsHistory(persistent, cap, h, start, now);
  }
}
