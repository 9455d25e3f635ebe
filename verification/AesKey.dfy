/** A project's AES key, kept in a secret and in an annotation of the project, each healing the other. */
module AesKey {
  import opened Common

  /******* Hexadecimal keys *******/

  type byte = b: int | 0 <= b < 256

  function HexChar(d: nat): char
    requires d < 16
  {
    if d < 10 then ('0' as int + d) as char else ('a' as int + d - 10) as char
  }

  /** Both cases are accepted. */
  function HexValue(c: char): Option<nat> {
    if '0' <= c <= '9' then Some(c as int - '0' as int)
    else if 'a' <= c <= 'f' then Some(c as int - 'a' as int + 10)
    else if 'A' <= c <= 'F' then Some(c as int - 'A' as int + 10)
    else None
  }

  function HexEncode(raw: seq<byte>): (s: string)
    ensures |s| == 2 * |raw|
  {
    if raw == [] then [] else [HexChar(raw[0] / 16), HexChar(raw[0] % 16)] + HexEncode(raw[1..])
  }

  function HexDecode(s: string): Option<seq<int>> {
    if s == [] then Some([])
    else if |s| == 1 then None
    else
      match (HexValue(s[0]), HexValue(s[1]), HexDecode(s[2..]))
      case (Some(h), Some(l), Some(rest)) => Some([16 * h + l] + rest)
      case _ => None
  }

  lemma {:induction false} HexRoundTrip(raw: seq<byte>)
    ensures HexDecode(HexEncode(raw)) == Some(raw)
  {
    if raw != [] {
      HexRoundTrip(raw[1..]);
      assert HexEncode(raw)[2..] == HexEncode(raw[1..]);
      assert raw == [raw[0]] + raw[1..];
    }
  }

  const DIGITS := "0123456789abcdef"

  /** Each byte is written as two lower-case digits, the high one first. */
  lemma {:induction false} EncodesDigits(raw: seq<byte>, i: nat)
    requires i < |raw|
    ensures HexEncode(raw)[2 * i..2 * i + 2] == [DIGITS[raw[i] / 16], DIGITS[raw[i] % 16]]
    decreases i
  {
    if i == 0 {
      DigitsAreHexChars(raw[0] / 16);
      DigitsAreHexChars(raw[0] % 16);
    } else {
      EncodesDigits(raw[1..], i - 1);
      assert HexEncode(raw)[2 * i..2 * i + 2] == HexEncode(raw[1..])[2 * (i - 1)..2 * (i - 1) + 2];
    }
  }

  lemma DigitsAreHexChars(d: nat)
    requires d < 16
    ensures HexChar(d) == DIGITS[d]
  {
  }

  ghost predicate IsHexDigit(c: char) {
    '0' <= c <= '9' || 'a' <= c <= 'f' || 'A' <= c <= 'F'
  }

  ghost predicate AllHexDigits(s: string) {
    forall i :: 0 <= i < |s| ==> IsHexDigit(s[i])
  }

  lemma DigitExactly(c: char)
    ensures HexValue(c).Some? <==> IsHexDigit(c)
  {
  }

  lemma SplitDigits(s: string)
    requires |s| >= 2
    ensures AllHexDigits(s) <==> IsHexDigit(s[0]) && IsHexDigit(s[1]) && AllHexDigits(s[2..])
  {
    assert forall i :: 2 <= i < |s| ==> s[i] == s[2..][i - 2];
  }

  lemma DecodesByPair(s: string)
    requires |s| >= 2
    ensures HexDecode(s).Some? <==> HexValue(s[0]).Some? && HexValue(s[1]).Some? && HexDecode(s[2..]).Some?
  {
  }

  lemma DecodesShort(s: string)
    requires |s| <= 1
    ensures HexDecode(s).Some? <==> s == []
  {
  }

  /** A text is accepted exactly if it is pairs of digits. */
  lemma {:induction false} DecodesExactly(s: string)
    ensures HexDecode(s).Some? <==> |s| % 2 == 0 && AllHexDigits(s)
  {
    if |s| >= 2 {
      var rest := s[2..];
      DecodesByPair(s);
      DigitExactly(s[0]);
      DigitExactly(s[1]);
      DecodesExactly(rest);
      SplitDigits(s);
    } else {
      DecodesShort(s);
    }
  }

  predicate IsValidHex32(s: string) {
    |s| == 32 && HexDecode(s).Some?
  }

  /** What the random source delivers for a new key. */
  ghost predicate IsSeed(raw: seq<byte>) {
    |raw| == 16
  }

  lemma GeneratedKeyIsValid(raw: seq<byte>)
    requires IsSeed(raw)
    ensures IsValidHex32(HexEncode(raw))
  {
    HexRoundTrip(raw);
  }

  /******* The two copies *******/

  datatype Secret = Absent | Present(key: Option<string>)

  datatype State = State(secret: Secret, annotation: Option<string>)

  /** The call that fails in a reconcile, if any. */
  datatype Fault = NoFault | GetSecret | GenerateKey | CreateSecret | UpdateSecret | UpdateProject

  predicate HasValidKey(s: State) {
    s.secret.Present? && s.secret.key.Some? && IsValidHex32(s.secret.key.value)
  }

  predicate AnnotationEmpty(s: State) {
    s.annotation.None? || s.annotation.value == ""
  }

  function Reconcile(s: State, raw: seq<byte>, fault: Fault): (State, bool) {
    var newKey := HexEncode(raw);
    if fault.GetSecret? then (s, false)
    else if s.secret.Absent? then
      if s.annotation.Some? then
        if fault.CreateSecret? then (s, false) else (s.(secret := Present(s.annotation)), true)
      else if fault.GenerateKey? || fault.UpdateProject? then (s, false)
      else if fault.CreateSecret? then (s.(annotation := Some(newKey)), false)
      else (State(Present(Some(newKey)), Some(newKey)), true)
    else if HasValidKey(s) then
      if !AnnotationEmpty(s) then (s, true)
      else if fault.UpdateProject? then (s, false)
      else (s.(annotation := s.secret.key), true)
    else if s.annotation.Some? && IsValidHex32(s.annotation.value) then
      if fault.UpdateSecret? then (s, false) else (s.(secret := Present(s.annotation)), true)
    else if fault.GenerateKey? || fault.UpdateSecret? then (s, false)
    else if fault.UpdateProject? then (s.(secret := Present(Some(newKey))), false)
    else (State(Present(Some(newKey)), Some(newKey)), true)
  }

  class Project {
    var secret: Secret
    var annotation: Option<string>

    ghost function Copies(): State
      reads this
    {
      State(secret, annotation)
    }

    constructor (secret: Secret, annotation: Option<string>)
      ensures Copies() == State(secret, annotation)
    {
      this.secret, this.annotation := secret, annotation;
    }

    method ReconcileSecret(raw: seq<byte>, fault: Fault) returns (ok: bool)
      modifies this
      ensures (Copies(), ok) == Reconcile(old(Copies()), raw, fault)
    {
      if fault.GetSecret? { return false; }
      if secret.Absent? {
        var data;
        if annotation.Some? {
          data := annotation.value;
        } else {
          if fault.GenerateKey? { return false; }
          data := HexEncode(raw);
          if fault.UpdateProject? { return false; }
          annotation := Some(data);
        }
        if fault.CreateSecret? { return false; }
        secret := Present(Some(data));
        return true;
      }
      if secret.key.None? || !IsValidHex32(secret.key.value) {
        if annotation.Some? && IsValidHex32(annotation.value) {
          if fault.UpdateSecret? { return false; }
          secret := Present(annotation);
        } else {
          if fault.GenerateKey? { return false; }
          var data := HexEncode(raw);
          if fault.UpdateSecret? { return false; }
          secret := Present(Some(data));
          if fault.UpdateProject? { return false; }
          annotation := Some(data);
        }
        return true;
      }
      if annotation.None? || annotation.value == "" {
        if fault.UpdateProject? { return false; }
        annotation := secret.key;
      }
      return true;
    }
  }

  /******* One reconcile *******/

  predicate Agree(s: State) {
    s.secret.Present? && s.secret.key.Some? && s.annotation == s.secret.key
  }

  /** A valid key in the secret beside a different, non-empty annotation: nothing repairs this. */
  predicate Diverged(s: State) {
    HasValidKey(s) && !AnnotationEmpty(s) && s.annotation != s.secret.key
  }

  /** A successful reconcile makes the copies agree exactly when they had not diverged before. */
  lemma AgreesExactly(s: State, raw: seq<byte>, fault: Fault)
    requires Reconcile(s, raw, fault).1
    ensures Agree(Reconcile(s, raw, fault).0) <==> !Diverged(s)
  {
  }

  /** No copy is of use: none is there, or the secret's is invalid and the annotation is no valid key either. */
  predicate NeedsNewKey(s: State) {
    if s.secret.Absent? then s.annotation.None?
    else !HasValidKey(s) && (s.annotation.None? || !IsValidHex32(s.annotation.value))
  }

  /** A reconcile fails exactly if a call fails that this state requires. */
  lemma FailsExactly(s: State, raw: seq<byte>, fault: Fault)
    ensures !Reconcile(s, raw, fault).1 <==>
      match fault
      case NoFault => false
      case GetSecret => true
      case GenerateKey => NeedsNewKey(s)
      case CreateSecret => s.secret.Absent?
      case UpdateSecret => s.secret.Present? && !HasValidKey(s)
      case UpdateProject => NeedsNewKey(s) || (HasValidKey(s) && AnnotationEmpty(s))
  {
  }

  /**
   What a success makes of the copies: a valid key in the secret stays and fills an empty annotation; otherwise the
   annotation becomes the secret's key, if it can, and if it cannot both become the random bytes in hexadecimal. A
   failing reconcile changes nothing, except that it may write one of the copies if both are of no use.
   */
  lemma KeyExactly(s: State, raw: seq<byte>, fault: Fault)
    ensures var (s', ok) := Reconcile(s, raw, fault);
            && (ok && HasValidKey(s) ==>
                  s'.secret == s.secret && s'.annotation == if AnnotationEmpty(s) then s.secret.key else s.annotation)
            && (ok && !HasValidKey(s) && !NeedsNewKey(s) ==> s' == State(Present(s.annotation), s.annotation))
            && (ok && NeedsNewKey(s) ==> s' == State(Present(Some(HexEncode(raw))), Some(HexEncode(raw))))
            && (!ok ==>
                  || s' == s
                  || (NeedsNewKey(s) && s.secret.Absent? && s' == s.(annotation := Some(HexEncode(raw))))
                  || (NeedsNewKey(s) && s.secret.Present? && s' == s.(secret := Present(Some(HexEncode(raw))))))
  {
  }

  /** After a success the secret holds a valid key exactly when it was not just created from an invalid annotation. */
  lemma ValidExactly(s: State, raw: seq<byte>, fault: Fault)
    requires IsSeed(raw) && Reconcile(s, raw, fault).1
    ensures HasValidKey(Reconcile(s, raw, fault).0) <==>
      !(s.secret.Absent? && s.annotation.Some? && !IsValidHex32(s.annotation.value))
  {
    GeneratedKeyIsValid(raw);
  }

  /** From any state, two successful reconciles are enough for a valid key. */
  lemma ValidAfterTwo(s: State, raw: seq<byte>, fault: Fault, raw': seq<byte>, fault': Fault)
    requires IsSeed(raw) && IsSeed(raw')
    requires Reconcile(s, raw, fault).1 && Reconcile(Reconcile(s, raw, fault).0, raw', fault').1
    ensures HasValidKey(Reconcile(Reconcile(s, raw, fault).0, raw', fault').0)
  {
    ValidExactly(s, raw, fault);
    ValidExactly(Reconcile(s, raw, fault).0, raw', fault');
  }

  /******* Runs *******/

  datatype Loss = SecretDeleted | KeyMissing | KeyInvalid(garbage: string) | AnnotationRemoved | AnnotationEmptied

  datatype Step = Lose(loss: Loss) | Try(raw: seq<byte>, fault: Fault)

  ghost predicate Legal(step: Step) {
    match step
    case Lose(loss) => loss.KeyInvalid? ==> !IsValidHex32(loss.garbage)
    case Try(raw, _) => IsSeed(raw)
  }

  function AfterLoss(s: State, loss: Loss): State {
    match loss
    case SecretDeleted => s.(secret := Absent)
    case KeyMissing => if s.secret.Absent? then s else s.(secret := Present(None))
    case KeyInvalid(garbage) => if s.secret.Absent? then s else s.(secret := Present(Some(garbage)))
    case AnnotationRemoved => s.(annotation := None)
    case AnnotationEmptied => if s.annotation.None? then s else s.(annotation := Some(""))
  }

  function Do(s: State, step: Step): State {
    match step
    case Lose(loss) => AfterLoss(s, loss)
    case Try(raw, fault) => Reconcile(s, raw, fault).0
  }

  function Run(s: State, steps: seq<Step>): State {
    if steps == [] then s else Do(Run(s, steps[..|steps| - 1]), steps[|steps| - 1])
  }

  ghost predicate LegalRun(steps: seq<Step>) {
    forall i :: 0 <= i < |steps| ==> Legal(steps[i])
  }

  /** The annotation is empty, or was not written by anything but a key. */
  predicate CleanAnnotation(s: State) {
    AnnotationEmpty(s) || IsValidHex32(s.annotation.value)
  }

  lemma {:induction false} NeverDiverges(s: State, steps: seq<Step>)
    requires s.secret.Absent? && LegalRun(steps)
    requires CleanAnnotation(s) || forall i :: 0 <= i < |steps| && steps[i].Try? ==> steps[i].fault != UpdateProject
    ensures !Diverged(Run(s, steps)) && (CleanAnnotation(s) ==> CleanAnnotation(Run(s, steps)))
  {
    if steps != [] {
      NeverDiverges(s, steps[..|steps| - 1]);
      var step := steps[|steps| - 1];
      if step.Try? { GeneratedKeyIsValid(step.raw); }
    }
  }

  /**
   Starting with no secret, the copies agree after every successful reconcile of every run of losses and reconciles,
   provided the annotation did not start out as something else than a key, or no write of the project fails.
   */
  lemma AgreesAfterEverySuccess(s: State, steps: seq<Step>, raw: seq<byte>, fault: Fault)
    requires s.secret.Absent? && LegalRun(steps)
    requires CleanAnnotation(s) || forall i :: 0 <= i < |steps| && steps[i].Try? ==> steps[i].fault != UpdateProject
    requires Reconcile(Run(s, steps), raw, fault).1
    ensures Agree(Reconcile(Run(s, steps), raw, fault).0)
  {
    NeverDiverges(s, steps);
    AgreesExactly(Run(s, steps), raw, fault);
  }

  /**
   The proviso is needed: after one failed write of the project, reconciles succeed for good with different copies.
   */
  lemma FailedWriteCanDivergeForGood(raw: seq<byte>, garbage: string)
    requires IsSeed(raw) && garbage != "" && !IsValidHex32(garbage)
    ensures var s := Run(State(Absent, Some(garbage)), [Try(raw, NoFault), Try(raw, UpdateProject)]);
            Diverged(s) && forall raw', fault :: fault != GetSecret ==> Reconcile(s, raw', fault) == (s, true)
  {
    GeneratedKeyIsValid(raw);
    var s0 := State(Absent, Some(garbage));
    var steps := [Try(raw, NoFault), Try(raw, UpdateProject)];
    assert steps[..1] == [steps[0]] && steps[..1][..0] == [];
    assert Run(s0, steps[..1]) == State(Present(Some(garbage)), Some(garbage));
  }

  /** The copies agree after every success of every run. */
  ghost predicate AlwaysAgrees(s: State) {
    forall steps, raw, fault :: LegalRun(steps) && Reconcile(Run(s, steps), raw, fault).1 ==>
      Agree(Reconcile(Run(s, steps), raw, fault).0)
  }

  /** Starting with no secret, this is so exactly if the annotation is absent, empty or a key. */
  lemma AlwaysAgreesExactly(s: State)
    requires s.secret.Absent?
    ensures AlwaysAgrees(s) <==> CleanAnnotation(s)
  {
    if CleanAnnotation(s) {
      forall steps, raw, fault | LegalRun(steps) && Reconcile(Run(s, steps), raw, fault).1
        ensures Agree(Reconcile(Run(s, steps), raw, fault).0)
      {
        AgreesAfterEverySuccess(s, steps, raw, fault);
      }
    } else {
      var raw: seq<byte> := seq(16, i => 0);
      var steps := [Try(raw, NoFault), Try(raw, UpdateProject)];
      FailedWriteCanDivergeForGood(raw, s.annotation.value);
      assert s == State(Absent, Some(s.annotation.value));
      assert Reconcile(Run(s, steps), raw, NoFault) == (Run(s, steps), true);
    }
  }

  /******* Durability *******/

  ghost predicate Intact(s: State, key: string) {
    s == State(Present(Some(key)), Some(key)) && IsValidHex32(key)
  }

  /** One copy still is `key`, and the other is `key` as well or shows that it was lost. */
  ghost predicate Survives(s: State, key: string) {
    && IsValidHex32(key)
    && (Intact(s, key)
        || (s.annotation == Some(key) && !HasValidKey(s))
        || (s.secret == Present(Some(key)) && AnnotationEmpty(s)))
  }

  /** Whether a copy was lost since the last successful reconcile of the run. */
  function LossPending(s: State, steps: seq<Step>): bool {
    if steps == [] then false
    else
      var before := steps[..|steps| - 1];
      match steps[|steps| - 1]
      case Lose(_) => true
      case Try(raw, fault) => LossPending(s, before) && !Reconcile(Run(s, before), raw, fault).1
  }

  ghost predicate OneLossAtATime(s: State, steps: seq<Step>) {
    forall i :: 0 <= i < |steps| && steps[i].Lose? ==> !LossPending(s, steps[..i])
  }

  /**
   If at most one copy is lost between successful reconciles, the key never changes: it survives at every point of the
   run, whatever writes fail, and both copies are that key again whenever no loss is pending.
   */
  lemma {:induction false} KeyNeverChanges(s: State, key: string, steps: seq<Step>)
    requires Intact(s, key) && LegalRun(steps) && OneLossAtATime(s, steps)
    ensures Survives(Run(s, steps), key)
    ensures !LossPending(s, steps) ==> Intact(Run(s, steps), key)
  {
    if steps != [] {
      var before := steps[..|steps| - 1];
      assert forall i :: 0 <= i < |before| ==> before[i] == steps[i] && before[..i] == steps[..i];
      KeyNeverChanges(s, key, before);
      assert steps[|steps| - 1].Lose? ==> !LossPending(s, before);
    }
  }
}
