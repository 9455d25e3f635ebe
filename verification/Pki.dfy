/** The webhook's certificate authority and server certificate, kept valid by periodic maintenance. */
module Pki {
  /******* Time *******/

  /** Instants and durations in nanoseconds. */
  type Time = int

  const SECOND: Time := 1_000_000_000
  const MINUTE: Time := 60 * SECOND
  const DAY: Time := 24 * 60 * MINUTE
  const BACKDATE := 5 * MINUTE
  const CERTIFICATE_DURATION := 90 * DAY
  const EXPIRING_CHECK_THRESHOLD := 7 * DAY

  /** Certificates state their validity in whole seconds (RFC 5280, section 4.1.2.5). */
  function WholeSeconds(t: Time): (w: Time)
    ensures w <= t < w + SECOND
  {
    t - t % SECOND
  }

  /******* Certificates *******/

  /**
   The names of the key certified and of the key that signed it, the validity period, both ends included, and the DNS
   names.
   */
  datatype Certificate = Certificate(key: int, signer: int, notBefore: Time, notAfter: Time, names: seq<string>)

  datatype Secret = Missing | Corrupt | Holds(cert: Certificate)

  datatype State = State(ca: Secret, leaf: Secret)

  /**
   The first call of a maintenance tick that fails; `AfterCertificates` covers everything after the server certificate.
   */
  datatype Fault = NoFault | GetCa | WriteCa | GetLeaf | WriteLeaf | AfterCertificates

  /** What a tick draws from its surroundings: the clock and two new keys. */
  datatype Draw = Draw(now: Time, caKey: int, leafKey: int)

  function Issue(key: int, signer: int, now: Time, names: seq<string>): Certificate {
    var notBefore := now - BACKDATE;
    Certificate(key, signer, WholeSeconds(notBefore), WholeSeconds(notBefore + CERTIFICATE_DURATION), names)
  }

  predicate IsExpiring(c: Certificate, now: Time) {
    now < c.notBefore || now + EXPIRING_CHECK_THRESHOLD > c.notAfter
  }

  /** Both lists are sorted and then compared. */
  predicate NamesMatch(names: seq<string>, wanted: seq<string>) {
    multiset(names) == multiset(wanted)
  }

  function EnsureRootCa(ca: Secret, d: Draw, fault: Fault): (Secret, bool) {
    if fault.GetCa? || ca.Corrupt? then (ca, false)
    else if ca.Missing? then
      if fault.WriteCa? then (ca, false) else (Holds(Issue(d.caKey, d.caKey, d.now, [])), true)
    else if !IsExpiring(ca.cert, d.now) then (ca, true)
    else if fault.WriteCa? then (ca, false)
    else (Holds(Issue(ca.cert.key, ca.cert.key, d.now, [])), true)
  }

  predicate NeedsRenewal(c: Certificate, host: string, now: Time) {
    IsExpiring(c, now) || !NamesMatch(c.names, [host])
  }

  function EnsureCertificate(leaf: Secret, caKey: int, host: string, d: Draw, fault: Fault): (Secret, bool) {
    if fault.GetLeaf? || leaf.Corrupt? then (leaf, false)
    else if leaf.Missing? then
      if fault.WriteLeaf? then (leaf, false) else (Holds(Issue(d.leafKey, caKey, d.now, [host])), true)
    else if !NeedsRenewal(leaf.cert, host, d.now) then (leaf, true)
    else if fault.WriteLeaf? then (leaf, false)
    else (Holds(Issue(leaf.cert.key, caKey, d.now, [host])), true)
  }

  function Tick(s: State, host: string, d: Draw, fault: Fault): (State, bool) {
    var (ca, caOk) := EnsureRootCa(s.ca, d, fault);
    if !caOk || !ca.Holds? then (s, false)
    else
      var (leaf, leafOk) := EnsureCertificate(s.leaf, ca.cert.key, host, d, fault);
      (State(ca, leaf), leafOk && !fault.AfterCertificates?)
  }

  class PublicKeyInfrastructure {
    const host: string
    var ca: Secret
    var leaf: Secret

    ghost function Secrets(): State
      reads this
    {
      State(ca, leaf)
    }

    constructor (host: string)
      ensures this.host == host && Secrets() == State(Missing, Missing)
    {
      this.host, ca, leaf := host, Missing, Missing;
    }

    method RenewCaCertificate(d: Draw, fault: Fault) returns (ok: bool)
      requires ca.Holds?
      modifies this`ca
      ensures !fault.GetCa? ==> (ca, ok) == EnsureRootCa(old(ca), d, fault)
    {
      if !IsExpiring(ca.cert, d.now) { return true; }
      if fault.WriteCa? { return false; }
      var key := ca.cert.key;
      ca := Holds(Issue(key, key, d.now, []));
      return true;
    }

    method RenewLeafCertificate(d: Draw, fault: Fault) returns (ok: bool)
      requires ca.Holds? && leaf.Holds?
      modifies this`leaf
      ensures !fault.GetLeaf? ==> (leaf, ok) == EnsureCertificate(old(leaf), ca.cert.key, host, d, fault)
    {
      if !IsExpiring(leaf.cert, d.now) && NamesMatch(leaf.cert.names, [host]) { return true; }
      if fault.WriteLeaf? { return false; }
      leaf := Holds(Issue(leaf.cert.key, ca.cert.key, d.now, [host]));
      return true;
    }

    method EnsureCertificatesAreUpToDate(d: Draw, fault: Fault) returns (ok: bool)
      modifies this
      ensures (Secrets(), ok) == Tick(old(Secrets()), host, d, fault)
    {
      if fault.GetCa? || ca.Corrupt? { return false; }
      if ca.Holds? {
        ok := RenewCaCertificate(d, fault);
        if !ok { return false; }
      } else {
        if fault.WriteCa? { return false; }
        ca := Holds(Issue(d.caKey, d.caKey, d.now, []));
      }
      if fault.GetLeaf? || leaf.Corrupt? { return false; }
      if leaf.Holds? {
        ok := RenewLeafCertificate(d, fault);
        if !ok { return false; }
      } else {
        if fault.WriteLeaf? { return false; }
        leaf := Holds(Issue(d.leafKey, ca.cert.key, d.now, [host]));
      }
      return !fault.AfterCertificates?;
    }
  }

  /******* One tick *******/

  predicate ValidAt(s: Secret, t: Time) {
    s.Holds? && s.cert.notBefore <= t <= s.cert.notAfter
  }

  /** The certificate is in force at `now` and will be until `end`. */
  predicate Covers(s: Secret, now: Time, end: Time) {
    s.Holds? && s.cert.notBefore <= now && end <= s.cert.notAfter
  }

  lemma OneName(names: seq<string>, host: string)
    requires NamesMatch(names, [host])
    ensures names == [host]
  {
    assert |names| == |multiset(names)| == 1;
    assert names[0] in multiset(names);
  }

  /**
   Whatever was stored before, a successful tick leaves two certificates good for the next seven days, for the host
   only.
   */
  lemma TickCovers(s: State, host: string, d: Draw, fault: Fault)
    requires Tick(s, host, d, fault).1
    ensures var s' := Tick(s, host, d, fault).0;
            && Covers(s'.ca, d.now, d.now + EXPIRING_CHECK_THRESHOLD)
            && Covers(s'.leaf, d.now, d.now + EXPIRING_CHECK_THRESHOLD)
            && s'.leaf.cert.names == [host]
  {
    var s' := Tick(s, host, d, fault).0;
    if NamesMatch(s'.leaf.cert.names, [host]) { OneName(s'.leaf.cert.names, host); }
  }

  /** Good for the next seven days. */
  predicate Good(s: Secret, now: Time) {
    Covers(s, now, now + EXPIRING_CHECK_THRESHOLD)
  }

  /**
   A tick succeeds exactly if no secret is damaged and no call that it makes fails; a certificate is written only if
   there is none, if it is not good for the next seven days, or if it does not name just the host.
   */
  lemma TickSucceedsExactly(s: State, host: string, d: Draw, fault: Fault)
    ensures Tick(s, host, d, fault).1 <==>
      && !s.ca.Corrupt? && !s.leaf.Corrupt?
      && (fault.NoFault? || (fault.WriteCa? && Good(s.ca, d.now))
          || (fault.WriteLeaf? && Good(s.leaf, d.now) && s.leaf.cert.names == [host]))
  {
    if s.leaf.Holds? && NamesMatch(s.leaf.cert.names, [host]) { OneName(s.leaf.cert.names, host); }
  }

  /******* Runs *******/

  /** Between ticks the server certificate's secret may be lost or damaged; the authority's secret is left alone. */
  datatype Step = Maintain(d: Draw, fault: Fault) | LeafDeleted | LeafDamaged

  function Do(s: State, host: string, step: Step): State {
    match step
    case Maintain(d, fault) => Tick(s, host, d, fault).0
    case LeafDeleted => s.(leaf := Missing)
    case LeafDamaged => s.(leaf := Corrupt)
  }

  function Run(s: State, host: string, steps: seq<Step>): State {
    if steps == [] then s else Do(Run(s, host, steps[..|steps| - 1]), host, steps[|steps| - 1])
  }

  /** When the last tick of a run took place; `start` if there was none. */
  function Clock(start: Time, steps: seq<Step>): Time {
    if steps == [] then start
    else if steps[|steps| - 1].Maintain? then steps[|steps| - 1].d.now
    else Clock(start, steps[..|steps| - 1])
  }

  /** Time does not run backwards. */
  predicate Ordered(start: Time, steps: seq<Step>)
  {
    steps == [] ||
    (Ordered(start, steps[..|steps| - 1]) && Clock(start, steps[..|steps| - 1]) <= Clock(start, steps))
  }

  datatype Deadline = Never | At(t: Time)

  function CaDeadline(s: State, host: string, steps: seq<Step>): Deadline {
    if steps == [] then Never
    else
      var before := steps[..|steps| - 1];
      match steps[|steps| - 1]
      case Maintain(d, fault) =>
        if Tick(Run(s, host, before), host, d, fault).1 then At(d.now + EXPIRING_CHECK_THRESHOLD)
        else CaDeadline(s, host, before)
      case _ => CaDeadline(s, host, before)
  }

  /** Seven days after the last successful tick, provided the server certificate was not lost since. */
  function LeafDeadline(s: State, host: string, steps: seq<Step>): Deadline {
    if steps == [] then Never
    else
      var before := steps[..|steps| - 1];
      match steps[|steps| - 1]
      case Maintain(d, fault) =>
        if Tick(Run(s, host, before), host, d, fault).1 then At(d.now + EXPIRING_CHECK_THRESHOLD)
        else LeafDeadline(s, host, before)
      case _ => Never
  }

  lemma TickKeepsCovered(s: State, host: string, d: Draw, fault: Fault, now: Time, end: Time)
    requires now <= d.now
    ensures Covers(s.ca, now, end) && end <= d.now + EXPIRING_CHECK_THRESHOLD ==>
            Covers(Tick(s, host, d, fault).0.ca, d.now, end)
    ensures Covers(s.leaf, now, end) && end <= d.now + EXPIRING_CHECK_THRESHOLD && (s.leaf.cert.names == [host])
        ==> Covers(Tick(s, host, d, fault).0.leaf, d.now, end) && Tick(s, host, d, fault).0.leaf.cert.names == [host]
  {
  }

  lemma {:induction false} RunCovers(s: State, host: string, start: Time, steps: seq<Step>)
    requires Ordered(start, steps)
    ensures var end := CaDeadline(s, host, steps);
            end.At? ==> end.t <= Clock(start, steps) + EXPIRING_CHECK_THRESHOLD &&
                        Covers(Run(s, host, steps).ca, Clock(start, steps), end.t)
    ensures var end := LeafDeadline(s, host, steps);
            end.At? ==> end.t <= Clock(start, steps) + EXPIRING_CHECK_THRESHOLD &&
                        Covers(Run(s, host, steps).leaf, Clock(start, steps), end.t) &&
                        Run(s, host, steps).leaf.cert.names == [host]
  {
    if steps != [] {
      var before := steps[..|steps| - 1];
      RunCovers(s, host, start, before);
      var step := steps[|steps| - 1];
      if step.Maintain? {
        var mid := Run(s, host, before);
        if Tick(mid, host, step.d, step.fault).1 {
          TickCovers(mid, host, step.d, step.fault);
        } else {
          var ca, leaf := CaDeadline(s, host, before), LeafDeadline(s, host, before);
          if ca.At? { TickKeepsCovered(mid, host, step.d, step.fault, Clock(start, before), ca.t); }
          if leaf.At? { TickKeepsCovered(mid, host, step.d, step.fault, Clock(start, before), leaf.t); }
        }
      }
    }
  }

  /**
   At every instant of every run, up to the next step: the authority's certificate is inside its validity period if a
   tick succeeded within the last seven days, whatever else failed; so is the server certificate, which names the host
   only, if its secret was not lost since.
   */
  lemma AlwaysValid(s: State, host: string, start: Time, steps: seq<Step>, t: Time)
    requires Ordered(start, steps) && Clock(start, steps) <= t
    ensures var end := CaDeadline(s, host, steps); end.At? && t <= end.t ==> ValidAt(Run(s, host, steps).ca, t)
    ensures var end := LeafDeadline(s, host, steps);
            end.At? && t <= end.t ==>
                ValidAt(Run(s, host, steps).leaf, t) && Run(s, host, steps).leaf.cert.names == [host]
  {
    RunCovers(s, host, start, steps);
  }

  /******* The chain *******/

  /** The server certificate, when there is one, is signed by the authority's key, and the authority signs itself. */
  predicate Chain(s: State) {
    && (s.ca.Holds? ==> s.ca.cert.signer == s.ca.cert.key)
    && (s.leaf.Holds? ==> s.ca.Holds? && s.leaf.cert.signer == s.ca.cert.key)
  }

  /** The authority's key never changes once created, and the server certificate is always signed by it. */
  lemma {:induction false} ChainKept(s: State, host: string, steps: seq<Step>)
    requires Chain(s)
    ensures Chain(Run(s, host, steps))
    ensures s.ca.Holds? ==> Run(s, host, steps).ca.Holds? && Run(s, host, steps).ca.cert.key == s.ca.cert.key
  {
    if steps != [] {
      ChainKept(s, host, steps[..|steps| - 1]);
    }
  }

  /**
   Were the authority's secret lost, the next successful tick would restore the chain exactly when it also issued a
   server certificate: the renewal check looks at dates and names only, not at the signer.
   */
  lemma ChainRestoredExactly(s: State, host: string, d: Draw, fault: Fault)
    requires Chain(s) && (s.leaf.Holds? ==> s.leaf.cert.signer != d.caKey)
    requires Tick(s.(ca := Missing), host, d, fault).1
    ensures Chain(Tick(s.(ca := Missing), host, d, fault).0)
       <==> s.leaf.Missing? || NeedsRenewal(s.leaf.cert, host, d.now)
  {
  }

  /******* Renewals *******/

  predicate RenewsLeaf(s: State, host: string, step: Step) {
    step.Maintain? && s.leaf.Holds? && NeedsRenewal(s.leaf.cert, host, step.d.now) && Do(s, host, step).leaf != s.leaf
  }

  predicate RenewsCa(s: State, host: string, step: Step) {
    step.Maintain? && s.ca.Holds? && IsExpiring(s.ca.cert, step.d.now) && Do(s, host, step).ca != s.ca
  }

  ghost predicate IssuedAt(s: Secret, t: Time, names: seq<string>) {
    s.Holds? && s.cert == Issue(s.cert.key, s.cert.signer, t, names)
  }

  lemma {:induction false} LeafKeptUntilRenewed(s: State, host: string, steps: seq<Step>)
    requires s.leaf.Holds? && forall i :: 0 <= i < |steps| ==> steps[i].Maintain?
    requires forall i :: 0 <= i < |steps| ==> !RenewsLeaf(Run(s, host, steps[..i]), host, steps[i])
    ensures Run(s, host, steps).leaf == s.leaf
  {
    if steps != [] {
      var before := steps[..|steps| - 1];
      assert forall i :: 0 <= i < |before| ==> before[i] == steps[i] && before[..i] == steps[..i];
      LeafKeptUntilRenewed(s, host, before);
      assert !RenewsLeaf(Run(s, host, before), host, steps[|steps| - 1]);
    }
  }

  lemma {:induction false} CaKeptUntilRenewed(s: State, host: string, steps: seq<Step>)
    requires s.ca.Holds?
    requires forall i :: 0 <= i < |steps| ==> !RenewsCa(Run(s, host, steps[..i]), host, steps[i])
    ensures Run(s, host, steps).ca == s.ca
  {
    if steps != [] {
      var before := steps[..|steps| - 1];
      assert forall i :: 0 <= i < |before| ==> before[i] == steps[i] && before[..i] == steps[..i];
      CaKeptUntilRenewed(s, host, before);
      assert !RenewsCa(Run(s, host, before), host, steps[|steps| - 1]);
    }
  }

  lemma {:induction false} OrderedFrom(start: Time, steps: seq<Step>)
    requires Ordered(start, steps)
    ensures start <= Clock(start, steps)
  {
    if steps != [] { OrderedFrom(start, steps[..|steps| - 1]); }
  }

  lemma IssuedUntil(key: int, signer: int, issued: Time, names: seq<string>, now: Time)
    requires issued <= now && IsExpiring(Issue(key, signer, issued, names), now)
    ensures now > WholeSeconds(issued - BACKDATE) + 83 * DAY > issued - BACKDATE + 83 * DAY - SECOND
  {
  }

  /**
   A server certificate issued at `issued` for the host is renewed next only after more than 83 days less five minutes,
   counted from the whole second that its validity starts in.
   */
  lemma LeafRenewalsFarApart(s: State, host: string, issued: Time, steps: seq<Step>, next: Step)
    requires IssuedAt(s.leaf, issued, [host]) && Ordered(issued, steps + [next])
    requires forall i :: 0 <= i < |steps| ==> steps[i].Maintain?
    requires forall i :: 0 <= i < |steps| ==> !RenewsLeaf(Run(s, host, steps[..i]), host, steps[i])
    requires RenewsLeaf(Run(s, host, steps), host, next)
    ensures next.d.now > WholeSeconds(issued - BACKDATE) + 83 * DAY > issued - BACKDATE + 83 * DAY - SECOND
  {
    LeafKeptUntilRenewed(s, host, steps);
    OrderedFrom(issued, steps + [next]);
    var c := s.leaf.cert;
    IssuedUntil(c.key, c.signer, issued, [host], next.d.now);
  }

  /** The same for the authority's certificate. */
  lemma CaRenewalsFarApart(s: State, host: string, issued: Time, steps: seq<Step>, next: Step)
    requires IssuedAt(s.ca, issued, []) && Ordered(issued, steps + [next])
    requires forall i :: 0 <= i < |steps| ==> !RenewsCa(Run(s, host, steps[..i]), host, steps[i])
    requires RenewsCa(Run(s, host, steps), host, next)
    ensures next.d.now > WholeSeconds(issued - BACKDATE) + 83 * DAY > issued - BACKDATE + 83 * DAY - SECOND
  {
    CaKeptUntilRenewed(s, host, steps);
    OrderedFrom(issued, steps + [next]);
    var c := s.ca.cert;
    IssuedUntil(c.key, c.signer, issued, [], next.d.now);
  }

  /**
   Every certificate that a tick puts in place was issued by that very tick, because there was none or none good enough,
   with the key that was there or else the new one, and signed by the authority.
   */
  lemma ChangesAreIssues(s: State, host: string, d: Draw, fault: Fault)
    ensures var s' := Tick(s, host, d, fault).0;
            && (s'.ca != s.ca ==>
                  && IssuedAt(s'.ca, d.now, []) && !Good(s.ca, d.now)
                  && s'.ca.cert.signer == s'.ca.cert.key == if s.ca.Missing? then d.caKey else s.ca.cert.key)
            && (s'.leaf != s.leaf ==>
                  && IssuedAt(s'.leaf, d.now, [host]) && s'.ca.Holds? && s'.leaf.cert.signer == s'.ca.cert.key
                  && !(Good(s.leaf, d.now) && s.leaf.cert.names == [host])
                  && s'.leaf.cert.key == if s.leaf.Missing? then d.leafKey else s.leaf.cert.key)
  {
  }

  /** Renewals keep the server's private key; a damaged secret is never repaired, and makes every tick fail. */
  lemma {:induction false} LeafKeyKept(s: State, host: string, steps: seq<Step>)
    requires !s.leaf.Missing? && forall i :: 0 <= i < |steps| ==> steps[i].Maintain?
    ensures s.leaf.Holds? ==> Run(s, host, steps).leaf.Holds? && Run(s, host, steps).leaf.cert.key == s.leaf.cert.key
    ensures s.leaf.Corrupt? ==> Run(s, host, steps).leaf.Corrupt?
    ensures s.leaf.Corrupt? ==> forall d, fault :: !Tick(Run(s, host, steps), host, d, fault).1
  {
    if steps != [] {
      LeafKeyKept(s, host, steps[..|steps| - 1]);
    }
  }
}
