/** What each break-glass call does, for the operator who makes it. */
module BreakglassCalls {
  import opened Wrappers
  import opened ByteLayout
  import opened SigningLayout
  import opened LayoutBytes
  import opened Breakglass
  import opened BreakglassHistory

  /** The record of an accepted activation: the call's instant and id, the signers in order, the
      justification without line breaks, and everything else as handed in. */
  ghost predicate IsRecord(rec: Activation, act: Activation, id: Uuid, now: Time) {
    && rec.id == id && rec.activatedAt == now && rec.expiresAt == act.expiresAt
    && rec.signature1 == act.signature1 && rec.signature2 == act.signature2
    && |rec.activatedBy| == 2 && multiset(rec.activatedBy) == multiset(act.activatedBy)
    && NotAfter(rec.activatedBy[0], rec.activatedBy[1])
    && |rec.justification| == |act.justification|
    && forall k :: 0 <= k < |act.justification| ==>
         rec.justification[k] == if act.justification[k] in {10, 13} then 32 else act.justification[k]
  }

  lemma AdmittedIsRecord(act: Activation, id: Uuid, now: Time)
    requires |act.activatedBy| == 2
    ensures IsRecord(Admitted(act, id, now), act, id, now)
  {
    hide Sort, Le, NotAfter;
    SortSorts(act.activatedBy);
    var s := Sort(act.activatedBy);
    LeIs(s[0], s[1]);
  }

  /** An accepted activation is stored, on disk if there is one, and takes effect even if the audit
      sink then refuses; a failed write and a refused activation change nothing. */
  lemma ActivationOutcome(reg: Registry, s: Store, act: Activation, id: Uuid, now: Time, writeOk: bool, auditOk: bool)
    ensures var (t, r) := Activated(reg, s, act, id, now, writeOk, auditOk);
            if !Acceptable(reg, act, s.cache, s.cap, now) then t == s && r.Err?
            else if s.persistent && !writeOk then t == s && r == Err(Io)
            else
              && t.cache.Some? && IsRecord(t.cache.value, act, id, now)
              && t.disk == (if s.persistent then t.cache else s.disk)
              && t.persistent == s.persistent && t.cap == s.cap
              && r == if auditOk then Ok(id) else Err(Audit)
  {
    hide AdmissionError, Acceptable, IsRecord, Admitted;
    AdmissionIff(reg, act, s.cache, s.cap, now);
    if Acceptable(reg, act, s.cache, s.cap, now) {
      assert |act.activatedBy| == 2 by { TwoSigners(reg, act, s.cache, s.cap, now); }
      AdmittedIsRecord(act, id, now);
    }
  }

  lemma TwoSigners(reg: Registry, act: Activation, cache: Option<Activation>, cap: int, now: Time)
    requires Acceptable(reg, act, cache, cap, now)
    ensures |act.activatedBy| == 2
  {
    hide LookupOperator, ActivationBytes;
  }

  /** The error of a refused activation names its first defect. */
  lemma RefusalNamesDefect(reg: Registry, act: Activation, cache: Option<Activation>, cap: int, now: Time)
    ensures var e := AdmissionError(reg, act, cache, cap, now);
            var n := |act.justification|;
            && (n == 0 || n > 256 ==> e == Some(JustificationTooLong))
            && (1 <= n <= 256 && |act.activatedBy| != 2 ==> e == Some(UnknownSigner))
            && (1 <= n <= 256 && |act.activatedBy| == 2 ==>
                  var o := LookupOperator(act.activatedBy[0], reg.operators);
                  var p := LookupOperator(act.activatedBy[1], reg.operators);
                  var seconds := act.expiresAt / 1_000_000_000;
                  var b := ActivationBytes(act.activatedBy, seconds, Sanitised(act.justification));
                  && (o.None? || p.None? ==> e == Some(UnknownSigner))
                  && (o.Some? && p.Some? ==>
                        var signed := |act.signature1| == 64 && reg.verify(o.value.pubkeyHex, act.signature1, b)
                                      && |act.signature2| == 64 && reg.verify(p.value.pubkeyHex, act.signature2, b);
                        var same := o.value.fingerprint == p.value.fingerprint;
                        && (same ==> e == Some(SameOperator))
                        && (!same && !signed ==> e == Some(InvalidSignature))
                        && (!same && signed && act.expiresAt <= now ==> e == Some(TtlNonPositive))
                        && (!same && signed && now < act.expiresAt && act.expiresAt > now + cap ==>
                              e == Some(TtlExceedsMaxDuration))
                        && (!same && signed && now < act.expiresAt <= now + cap
                            && cache.Some? && cache.value.expiresAt > now ==>
                              e == Some(AlreadyActive(cache.value.id)))))
  {
    hide LookupOperator, ActivationBytes;
  }

  /** A properly signed deactivation closes break-glass, on disk too, even if the audit sink then
      refuses; a failed removal and a refused deactivation change nothing. */
  lemma DeactivationOutcome(reg: Registry, s: Store, fp: Text, sig: Bytes, id: Uuid, removeOk: bool, auditOk: bool)
    ensures var (t, r) := Deactivated(reg, s, fp, sig, id, removeOk, auditOk);
            if !Closable(reg, s.cache, fp, sig, id) then
              && t == s
              && r == Err(if LookupOperator(fp, reg.operators).None? then UnknownSigner
                          else if s.cache.None? || s.cache.value.id != id then NoMatchingRecord
                          else InvalidSignature)
            else if s.persistent && s.disk.Some? && !removeOk then t == s && r == Err(Io)
            else
              && t.cache.None? && t.disk == (if s.persistent then None else s.disk)
              && t.persistent == s.persistent && t.cap == s.cap
              && r == if auditOk then Ok(()) else Err(Audit)
  {
    hide LookupOperator, DeactivationBytes;
  }

  /** Which events of a history open break-glass, and which close it. */
  lemma EffectIff(s: Store, e: Event)
    ensures EffectOf(s, e).Opens? <==>
            || (e.Activate? && Acceptable(e.reg, e.act, s.cache, s.cap, e.now) && (s.persistent ==> e.writeOk))
            || (e.CrashInActivate? && Acceptable(e.reg, e.act, s.cache, s.cap, e.now) && s.persistent)
    ensures EffectOf(s, e).Closes? <==>
            || (e.Deactivate? && Closable(e.reg, s.cache, e.fp, e.sig, e.id)
                && (s.persistent && s.disk.Some? ==> e.removeOk))
            || (e.CrashInDeactivate? && Closable(e.reg, s.cache, e.fp, e.sig, e.id))
            || (e.Restarts() && !s.persistent)
    ensures EffectOf(s, e).Opens? ==> EffectOf(s, e) == Opens(e.id, e.now, e.act.expiresAt, s.cap)
  {
    hide AdmissionError, Acceptable, LookupOperator, DeactivationBytes, Admitted;
    match e
    case Activate(now, reg, act, _, _, _) =>
      AdmissionIff(reg, act, s.cache, s.cap, now);
      RefusalIsNotAudit(reg, act, s.cache, s.cap, now);
    case CrashInActivate(now, reg, act, _, _, _, _) => AdmissionIff(reg, act, s.cache, s.cap, now);
    case _ =>
  }

  /** A check reports an unexpired cached record and changes nothing; an expired one it drops, from
      disk too if there is one and removing succeeds. */
  lemma CheckOutcome(s: Store, now: Time, removeOk: bool)
    ensures var t := Checked(s, now, removeOk);
            if s.cache.None? then t == s && StatusAt(s, now) == Inactive
            else if s.cache.value.expiresAt > now then
              t == s && StatusAt(s, now) == Active(s.cache.value.id, s.cache.value.expiresAt)
            else
              && StatusAt(s, now) == Inactive && t.cache.None?
              && (s.persistent && removeOk ==> t.disk.None?) && (!s.persistent || !removeOk ==> t.disk == s.disk)
              && t.persistent == s.persistent && t.cap == s.cap
  {
  }

  /** Opening caches an unexpired record; an expired one is dropped, and removed if that succeeds. */
  lemma OpenOutcome(found: Option<Activation>, now: Time, removeOk: bool)
    ensures var t := Opened(Store(None, found, true, DEFAULT_MAX_DURATION), now, removeOk);
            && t.persistent && t.cap == 14_400 * 1_000_000_000
            && (found.Some? && found.value.expiresAt > now ==> t.cache == found && t.disk == found)
            && (found.Some? && found.value.expiresAt <= now ==>
                  t.cache.None? && t.disk == if removeOk then None else found)
            && (found.None? ==> t.cache.None? && t.disk.None?)
  {
  }
}
