/**
  Break-glass state (raxis/kernel/src/breakglass.rs): a cached record, a persisted record,
  two-signer admission, single-signer deactivation and lazy expiry.
 */
module Breakglass {
  import opened Wrappers
  import opened Basics
  import opened ByteLayout
  import opened SigningLayout

  const NANOS: int := 1_000_000_000
  const MAX_JUSTIFICATION_BYTES: nat := 256
  const DEFAULT_MAX_DURATION: int := 4 * 60 * 60 * NANOS

  /** Wall-clock instants in nanoseconds, within the range of second timestamps. */
  type Time = t: int | InI64(t / NANOS) witness 0

  type Uuid = Bytes

  datatype Activation = Activation(
    id: Uuid,
    justification: Text,
    activatedBy: seq<Text>,
    activatedAt: Time,
    expiresAt: Time,
    signature1: Bytes,
    signature2: Bytes)

  datatype Operator = Operator(fingerprint: Text, pubkeyHex: Text)

  /** The operator registry, and Ed25519 verification of (public key, signature, payload). */
  datatype Registry = Registry(operators: seq<Operator>, verify: (Text, Bytes, Bytes) -> bool)

  datatype Status = Active(id: Uuid, expiresAt: Time) | Inactive

  datatype Error =
    | Io
    | Corrupt
    | UnknownSigner
    | SameOperator
    | InvalidSignature
    | TtlExceedsMaxDuration
    | TtlNonPositive
    | JustificationTooLong
    | AlreadyActive(id: Uuid)
    | NoMatchingRecord
    | Audit

  // ----- Admission -----

  function SanitiseByte(b: Byte): Byte {
    if b == 13 || b == 10 then 32 else b
  }

  function Sanitised(s: Text): Text {
    seq(|s|, k requires 0 <= k < |s| => SanitiseByte(s[k]))
  }

  /** sanitise_justification: CR and LF become spaces. */
  method SanitiseJustification(s: Text) returns (out: Text)
    ensures out == Sanitised(s)
    ensures |out| == |s| && forall k :: 0 <= k < |s| ==> out[k] == if s[k] in {10, 13} then 32 else s[k]
  {
    out := [];
    for i := 0 to |s|
      invariant out == Sanitised(s)[..i]
    {
      out := out + [if s[i] == 13 || s[i] == 10 then 32 else s[i]];
    }
  }

  function LookupOperator(fp: Text, operators: seq<Operator>): (r: Option<Operator>)
    ensures r.Some? ==> r.value in operators && EqIgnoreAsciiCase(r.value.fingerprint, fp)
  {
    if operators == [] then None
    else if EqIgnoreAsciiCase(operators[0].fingerprint, fp) then Some(operators[0])
    else LookupOperator(fp, operators[1..])
  }

  /** The first registered operator with the fingerprint, up to ASCII case; none only if no
      operator has it. */
  lemma {:induction false} LookupFindsFirst(fp: Text, operators: seq<Operator>)
    ensures LookupOperator(fp, operators).None? <==>
            forall k :: 0 <= k < |operators| ==> !EqIgnoreAsciiCase(operators[k].fingerprint, fp)
    ensures forall k :: 0 <= k < |operators| && EqIgnoreAsciiCase(operators[k].fingerprint, fp)
                        && (forall l :: 0 <= l < k ==> !EqIgnoreAsciiCase(operators[l].fingerprint, fp)) ==>
                          LookupOperator(fp, operators) == Some(operators[k])
    decreases |operators|
  {
    hide EqIgnoreAsciiCase;
    if operators == [] {
      assert LookupOperator(fp, operators).None?;
    } else {
      LookupFindsFirst(fp, operators[1..]);
      assert forall k :: 0 < k < |operators| ==> operators[k] == operators[1..][k - 1];
    }
  }

  predicate SignatureOk(reg: Registry, op: Operator, sig: Bytes, payload: Bytes) {
    |sig| == 64 && reg.verify(op.pubkeyHex, sig, payload)
  }

  /** The bytes an activation's signatures are checked against. */
  function SignedBytes(act: Activation): Bytes {
    ActivationBytes(act.activatedBy, act.expiresAt / NANOS, act.justification)
  }

  /** The checks of activate up to the persist step, in order. */
  function AdmissionError(reg: Registry, act: Activation, cache: Option<Activation>, cap: int, now: Time)
    : Option<Error>
  {
    var justification := Sanitised(act.justification);
    if |justification| == 0 || |justification| > MAX_JUSTIFICATION_BYTES then Some(JustificationTooLong)
    else if |act.activatedBy| != 2 then Some(UnknownSigner)
    else
      var o1 := LookupOperator(act.activatedBy[0], reg.operators);
      var o2 := LookupOperator(act.activatedBy[1], reg.operators);
      if o1.None? || o2.None? then Some(UnknownSigner)
      else if o1.value.fingerprint == o2.value.fingerprint then Some(SameOperator)
      else
        var payload := SignedBytes(act.(justification := justification));
        if !SignatureOk(reg, o1.value, act.signature1, payload) then Some(InvalidSignature)
        else if !SignatureOk(reg, o2.value, act.signature2, payload) then Some(InvalidSignature)
        else if act.expiresAt <= now then Some(TtlNonPositive)
        else if act.expiresAt - now > cap then Some(TtlExceedsMaxDuration)
        else if Live(cache, now).Some? then Some(AlreadyActive(cache.value.id))
        else None
  }

  /** What two operators have to hand in, in the order of their signatures: a justification of 1 to
      256 bytes, two signers who are found as different operators, the signature of each over the
      canonical bytes, an expiry ahead but within the cap, and no activation in effect. */
  ghost predicate Acceptable(reg: Registry, act: Activation, cache: Option<Activation>, cap: int, now: Time) {
    && 1 <= |act.justification| <= 256 && |act.activatedBy| == 2
    && now < act.expiresAt <= now + cap
    && !(cache.Some? && cache.value.expiresAt > now)
    && var first := LookupOperator(act.activatedBy[0], reg.operators);
       var second := LookupOperator(act.activatedBy[1], reg.operators);
       var bytes := ActivationBytes(act.activatedBy, act.expiresAt / 1_000_000_000, Sanitised(act.justification));
       && first.Some? && second.Some? && first.value.fingerprint != second.value.fingerprint
       && |act.signature1| == 64 && reg.verify(first.value.pubkeyHex, act.signature1, bytes)
       && |act.signature2| == 64 && reg.verify(second.value.pubkeyHex, act.signature2, bytes)
  }

  lemma AdmissionIff(reg: Registry, act: Activation, cache: Option<Activation>, cap: int, now: Time)
    ensures AdmissionError(reg, act, cache, cap, now).None? <==> Acceptable(reg, act, cache, cap, now)
  {
    hide LookupOperator, ActivationBytes;
  }

  /** What one operator has to hand in: the id of the cached activation, and their signature over its
      bytes. */
  ghost predicate Closable(reg: Registry, cache: Option<Activation>, fp: Text, sig: Bytes, id: Uuid) {
    && cache.Some? && cache.value.id == id
    && var op := LookupOperator(fp, reg.operators);
       && op.Some? && |sig| == 64
       && reg.verify(op.value.pubkeyHex, sig, DeactivationBytes(id, op.value.fingerprint))
  }

  /** The record that is persisted. */
  function Admitted(act: Activation, id: Uuid, now: Time): Activation {
    act.(id := id, activatedAt := now, justification := Sanitised(act.justification),
         activatedBy := Sort(act.activatedBy))
  }

  // ----- State -----

  /** The unexpired view of a record. */
  function Live(r: Option<Activation>, now: int): Option<Activation> {
    if r.Some? && r.value.expiresAt > now then r else None
  }

  /** The cache, the record file, whether there is a record path, and the TTL cap. */
  datatype Store = Store(cache: Option<Activation>, disk: Option<Activation>, persistent: bool, cap: int)

  /** open after a successful load: expired records are dropped, removal failures ignored, and
      the cap is the default.  Without a record path the state starts empty. */
  function Opened(s: Store, now: Time, removeOk: bool): Store {
    var cache := if s.persistent then Live(s.disk, now) else None;
    var disk := if s.persistent && cache.None? && removeOk then None else s.disk;
    Store(cache, disk, s.persistent, DEFAULT_MAX_DURATION)
  }

  function StatusAt(s: Store, now: Time): Status {
    if Live(s.cache, now).Some? then Active(s.cache.value.id, s.cache.value.expiresAt) else Inactive
  }

  function Checked(s: Store, now: Time, removeOk: bool): Store {
    if s.cache.None? || s.cache.value.expiresAt > now then s
    else s.(cache := None, disk := if s.persistent && removeOk then None else s.disk)
  }

  /** The disk step of activate. */
  function Persisted(s: Store, rec: Activation): Store {
    if s.persistent then s.(disk := Some(rec)) else s
  }

  function Activated(reg: Registry, s: Store, act: Activation, id: Uuid, now: Time, writeOk: bool, auditOk: bool)
    : (Store, Result<Uuid, Error>)
  {
    match AdmissionError(reg, act, s.cache, s.cap, now)
    case Some(e) => (s, Err(e))
    case None =>
      if s.persistent && !writeOk then (s, Err(Io))
      else
        var rec := Admitted(act, id, now);
        (Persisted(s, rec).(cache := Some(rec)), if auditOk then Ok(id) else Err(Audit))
  }

  function DeactivationError(reg: Registry, s: Store, fp: Text, sig: Bytes, id: Uuid, removeOk: bool): Option<Error> {
    var op := LookupOperator(fp, reg.operators);
    if op.None? then Some(UnknownSigner)
    else if s.cache.None? || s.cache.value.id != id then Some(NoMatchingRecord)
    else if !SignatureOk(reg, op.value, sig, DeactivationBytes(id, op.value.fingerprint)) then Some(InvalidSignature)
    else if s.persistent && s.disk.Some? && !removeOk then Some(Io)
    else None
  }

  /** The disk step of deactivate. */
  function Removed(s: Store): Store {
    if s.persistent then s.(disk := None) else s
  }

  function Deactivated(reg: Registry, s: Store, fp: Text, sig: Bytes, id: Uuid, removeOk: bool, auditOk: bool)
    : (Store, Result<(), Error>)
  {
    match DeactivationError(reg, s, fp, sig, id, removeOk)
    case Some(e) => (s, Err(e))
    case None => (Removed(s).(cache := None), if auditOk then Ok(()) else Err(Audit))
  }

  // ----- The object -----

  /** The record file is a field: only these methods touch it. */
  class BreakglassState {
    var inner: Option<Activation>
    var disk: Option<Activation>
    const persistent: bool
    var maxDuration: int

    function Value(): Store
      reads this
    {
      Store(inner, disk, persistent, maxDuration)
    }

    /** The state over a loaded record file. */
    constructor Loaded(found: Option<Activation>, now: Time, removeOk: bool)
      ensures Value() == Opened(Store(None, found, true, DEFAULT_MAX_DURATION), now, removeOk)
    {
      persistent, maxDuration := true, DEFAULT_MAX_DURATION;
      if found.Some? && found.value.expiresAt > now {
        inner, disk := found, found;
      } else if found.Some? {
        inner, disk := None, if removeOk then None else found;
      } else {
        inner, disk := None, None;
      }
    }

    /** open: an unreadable or corrupt record file is an error, a missing one is not. */
    static method Open(record: Result<Option<Activation>, Error>, now: Time, removeOk: bool)
      returns (r: Result<BreakglassState, Error>)
      ensures record.Err? ==> r == Err(record.error)
      ensures record.Ok? ==>
                && r.Ok? && fresh(r.value)
                && r.value.Value() == Opened(Store(None, record.value, true, DEFAULT_MAX_DURATION), now, removeOk)
    {
      if record.Err? {
        return Err(record.error);
      }
      var state := new BreakglassState.Loaded(record.value, now, removeOk);
      r := Ok(state);
    }

    /** disabled: memory only. */
    constructor Disabled()
      ensures Value() == Store(None, None, false, DEFAULT_MAX_DURATION)
    {
      inner, disk, persistent, maxDuration := None, None, false, DEFAULT_MAX_DURATION;
    }

    /** with_max_duration. */
    method SetMaxDuration(d: int)
      modifies this
      ensures Value() == old(Value()).(cap := d)
    {
      maxDuration := d;
    }

    method Check(now: Time, removeOk: bool) returns (status: Status)
      modifies this
      ensures status == StatusAt(old(Value()), now)
      ensures Value() == Checked(old(Value()), now, removeOk)
    {
      var snap := inner;
      if snap.Some? && snap.value.expiresAt > now {
        return Active(snap.value.id, snap.value.expiresAt);
      }
      if snap.Some? {
        inner := None;
        if persistent && removeOk {
          disk := None;
        }
      }
      return Inactive;
    }

    method Activate(reg: Registry, act: Activation, id: Uuid, now: Time, writeOk: bool, auditOk: bool)
      returns (r: Result<Uuid, Error>)
      modifies this
      ensures (Value(), r) == Activated(reg, old(Value()), act, id, now, writeOk, auditOk)
      ensures r == Ok(id) <==>
              Acceptable(reg, act, old(inner), old(maxDuration), now) && (persistent ==> writeOk) && auditOk
      ensures r.Ok? ==> r == Ok(id)
    {
      hide LookupOperator, SignatureOk, SignedBytes, Sort, ActivationBytes, Sanitised, Acceptable;
      AdmissionIff(reg, act, inner, maxDuration, now);
      var justification := SanitiseJustification(act.justification);
      if |justification| == 0 || |justification| > MAX_JUSTIFICATION_BYTES {
        return Err(JustificationTooLong);
      }
      if |act.activatedBy| != 2 {
        return Err(UnknownSigner);
      }
      var o1 := LookupOperator(act.activatedBy[0], reg.operators);
      var o2 := LookupOperator(act.activatedBy[1], reg.operators);
      if o1.None? || o2.None? {
        return Err(UnknownSigner);
      }
      if o1.value.fingerprint == o2.value.fingerprint {
        return Err(SameOperator);
      }
      var canonical := CanonicalSigningBytes(act.activatedBy, act.expiresAt / NANOS, justification);
      assert canonical == SignedBytes(act.(justification := justification)) by { SignedBytesIs(act, justification); }
      if !SignatureOk(reg, o1.value, act.signature1, canonical) {
        return Err(InvalidSignature);
      }
      if !SignatureOk(reg, o2.value, act.signature2, canonical) {
        return Err(InvalidSignature);
      }
      if act.expiresAt <= now {
        return Err(TtlNonPositive);
      }
      if act.expiresAt - now > maxDuration {
        return Err(TtlExceedsMaxDuration);
      }
      if inner.Some? && inner.value.expiresAt > now {
        return Err(AlreadyActive(inner.value.id));
      }
      var rec := act.(id := id, activatedAt := now, justification := justification,
                      activatedBy := Sort(act.activatedBy));
      if persistent {
        if !writeOk {
          return Err(Io);
        }
        disk := Some(rec);
      }
      inner := Some(rec);
      r := if auditOk then Ok(id) else Err(Audit);
    }

    method Deactivate(reg: Registry, fp: Text, sig: Bytes, id: Uuid, removeOk: bool, auditOk: bool)
      returns (r: Result<(), Error>)
      modifies this
      ensures (Value(), r) == Deactivated(reg, old(Value()), fp, sig, id, removeOk, auditOk)
      ensures r == Ok(()) <==>
              Closable(reg, old(inner), fp, sig, id) && (persistent && old(disk).Some? ==> removeOk) && auditOk
      ensures r == Ok(()) ==> inner.None? && (persistent ==> disk.None?)
    {
      hide LookupOperator, DeactivationBytes;
      var op := LookupOperator(fp, reg.operators);
      if op.None? {
        return Err(UnknownSigner);
      }
      if inner.None? || inner.value.id != id {
        return Err(NoMatchingRecord);
      }
      if !SignatureOk(reg, op.value, sig, DeactivationBytes(id, op.value.fingerprint)) {
        return Err(InvalidSignature);
      }
      if persistent {
        if disk.Some? && !removeOk {
          return Err(Io);
        }
        disk := None;
      }
      inner := None;
      r := if auditOk then Ok(()) else Err(Audit);
    }
  }

  lemma SignedBytesIs(act: Activation, justification: Text)
    ensures ActivationBytes(act.activatedBy, act.expiresAt / NANOS, justification) ==
            SignedBytes(act.(justification := justification))
  {
  }
}
