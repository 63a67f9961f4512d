// The JSONiq update expression `rename json <target> as <name>`: the target
// must be exactly one JSON object; the rename is not done on the spot but
// registered as a pending update of the query.

module RenameJsonField {
  import opened Base
  import opened Jdm
  import opened QueryContext

  /** The target check: the object a well-formed target denotes, or the
    * error the expression raises. A null target and a sequence without items
    * are empty; a second item, or an item that is not an object, is not a
    * valid target. */
  function TargetObject(target: Sequence): (r: Result<Item>)
    ensures r.Ok? <==> |Items(target)| == 1 && Items(target)[0].ObjectItem?
    ensures r.Ok? ==> r.value == Items(target)[0]
    ensures Items(target) == [] ==> r == Err(ErrUpdateInsertTargetIsEmptySequence)
    ensures Items(target) != [] && r.Err? ==> r == Err(ErrUpdateReplaceTargetNotAEatcpNode)
  {
    var targetItem :=
      match target
      case Null => Err(ErrUpdateInsertTargetIsEmptySequence)
      case ItemValue(i) => Ok(i)
      case _ =>
        var items := Items(target);
        if items == [] then Err(ErrUpdateInsertTargetIsEmptySequence)
        else if |items| > 1 then Err(ErrUpdateReplaceTargetNotAEatcpNode)
        else Ok(items[0]);
    if targetItem.Err? then targetItem
    else if !targetItem.value.ObjectItem? then Err(ErrUpdateReplaceTargetNotAEatcpNode)
    else targetItem
  }

  /** evaluateToItem: with a valid target one rename of oldName to newName
    * (a QNm built from the new name's string) is added to the pending updates
    * and null is returned; nothing is applied. With an invalid target the
    * error is raised and the pending updates are as they were. */
  method Evaluate(ctx: BrackitQueryContext, target: Sequence, oldName: QNm, newName: string)
      returns (r: Result<Sequence>)
    modifies ctx`updates
    ensures TargetObject(target).Err? ==> r == Err(TargetObject(target).error) && ctx.updates == old(ctx.updates)
    ensures TargetObject(target).Ok? ==>
              var op := RenameField(TargetObject(target).value, oldName, QNm(None, None, newName));
              r == Ok(Null) &&
              (old(ctx.updates).None? ==> ctx.updates == Some([op])) &&
              (old(ctx.updates).Some? ==> ctx.updates == Some(old(ctx.updates).value + [op]))
  {
    var t := TargetObject(target);
    if t.Err? {
      return Err(t.error);
    }
    ctx.AddPendingUpdate(RenameField(t.value, oldName, QNm(None, None, newName)));
    r := Ok(Null);
  }

  /** The expression always updates. */
  function IsUpdating(): (b: bool)
    ensures b
  {
    true
  }

  /** The expression is never vacuous. */
  function IsVacuous(): (b: bool)
    ensures !b
  {
    false
  }
}
