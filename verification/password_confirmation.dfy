/** The "password and confirmation must match" group validator that the
    registration and recovery forms both install, and the `passwordMismatch`
    mark it leaves on the confirmation control. */
module PasswordConfirmation {
  import opened Common

  /** What the group validator produces: the form-level error (`None` is
      `null`) and whether it marks the confirmation control. */
  datatype MatchCheck = MatchCheck(groupError: Option<string>, confirmMarked: bool)

  const MismatchKey: string := "passwordMismatch"

  /** `passwordMatchValidator(form)`. */
  function PasswordMatchValidator(password: string, confirm: string): (r: MatchCheck)
    ensures r.groupError.Some? <==> password != confirm
    ensures r.groupError.Some? ==> r.groupError.value == MismatchKey
    ensures r.confirmMarked <==> r.groupError.Some?
  {
    if password != confirm then MatchCheck(Some(MismatchKey), true) else MatchCheck(None, false)
  }

  /** The verdict does not depend on which control is which. */
  lemma MatchIsSymmetric(a: string, b: string)
    ensures PasswordMatchValidator(a, b) == PasswordMatchValidator(b, a)
  {
  }

  /** The two controls' values and whether the confirmation control
      currently carries the `passwordMismatch` mark. */
  datatype PasswordPair = PasswordPair(password: string, confirm: string, confirmMarked: bool)

  /** Both controls empty: the validator finds them equal and marks nothing. */
  const EmptyPair := PasswordPair("", "", false)

  /** The group validator runs after every edit. On a mismatch it marks the
      confirmation; on a match it returns `null` and leaves an earlier mark
      where it is. */
  function RunGroupValidator(p: PasswordPair): (r: PasswordPair)
    ensures r.password == p.password && r.confirm == p.confirm
    ensures r.confirmMarked <==> p.confirmMarked || p.password != p.confirm
  {
    if PasswordMatchValidator(p.password, p.confirm).confirmMarked then p.(confirmMarked := true) else p
  }

  /** Typing into the password control: only its own validators and the
      group validator run, so a mark on the confirmation survives. */
  function EditPassword(p: PasswordPair, v: string): (r: PasswordPair)
    ensures r.password == v && r.confirm == p.confirm
    ensures r.confirmMarked <==> p.confirmMarked || v != p.confirm
  {
    RunGroupValidator(p.(password := v))
  }

  /** Typing into the confirmation control: its own validators replace its
      errors, dropping any mark, then the group validator runs. */
  function EditConfirm(p: PasswordPair, v: string): (r: PasswordPair)
    ensures r.password == p.password && r.confirm == v
    ensures r.confirmMarked <==> p.password != v
  {
    RunGroupValidator(p.(confirm := v, confirmMarked := false))
  }

  /** The part of form validity that the pair decides: no group error and
      no mark left on the confirmation control. */
  function PairValid(p: PasswordPair): (ok: bool)
    ensures ok ==> p.password == p.confirm && !p.confirmMarked
    ensures p.confirmMarked ==> !ok
  {
    PasswordMatchValidator(p.password, p.confirm).groupError.None? && !p.confirmMarked
  }

  /** Every pair reached by edits carries the mark whenever its values
      differ. */
  ghost predicate MarkCoversMismatch(p: PasswordPair) {
    p.password != p.confirm ==> p.confirmMarked
  }

  lemma EditsKeepMarkCoverage(p: PasswordPair, v: string)
    requires MarkCoversMismatch(p)
    ensures MarkCoversMismatch(EditPassword(p, v))
    ensures MarkCoversMismatch(EditConfirm(p, v))
    ensures MarkCoversMismatch(EmptyPair)
  {
  }

  /** Editing the confirmation last decides validity by equality alone. */
  lemma ConfirmEditDecides(p: PasswordPair, v: string)
    ensures PairValid(EditConfirm(p, v)) <==> p.password == v
  {
  }

  /** Typing the confirmation first and then an equal password leaves the
      pair invalid, because the mark set while the password was still
      empty is not cleared; typing the confirmation again clears it. */
  lemma StaleMarkBlocksUntilConfirmEdited()
    ensures var p := EditPassword(EditConfirm(EmptyPair, "Test123"), "Test123");
      && p.password == p.confirm
      && !PairValid(p)
      && PairValid(EditConfirm(p, "Test123"))
  {
  }
}
