// The dynamic context of one query: external variable bindings, the list of
// pending updates, the external context item and its type, and the current
// date and time, fixed on first use.

module QueryContext {
  import opened Base
  import opened Jdm

  /** A pending update primitive: renaming a JSON object field, or any other
    * update primitive (by code). */
  datatype UpdateOp = RenameField(target: Item, oldName: QNm, newName: QNm) | OtherUpdate(code: nat)

  /** The current dateTime, as read from the clock once; xs:date and xs:time
    * values are derived from it. */
  datatype DateTime = DateTime(instant: int)
  datatype Date = DateOf(dateTime: DateTime)
  datatype Time = TimeOf(dateTime: DateTime)

  class BrackitQueryContext {
    /** The external variables; None until the first bind (Java null). */
    var externalVars: Option<map<QNm, Sequence>>
    /** The pending update list; None until the first pending update. */
    var updates: Option<seq<UpdateOp>>
    /** The update lists handed to UpdateList.apply, in order. */
    var applied: seq<seq<UpdateOp>>
    var extCtxItem: Option<Item>
    var extCtxItemType: Option<ItemType>
    var dateTime: Option<DateTime>
    var date: Option<Date>
    var time: Option<Time>

    /** The cached date and time, once computed, are those of the cached
      * dateTime. */
    ghost predicate Valid()
      reads this
    {
      (date.Some? ==> dateTime.Some? && date.value == DateOf(dateTime.value)) &&
      (time.Some? ==> dateTime.Some? && time.value == TimeOf(dateTime.value))
    }

    constructor ()
      ensures Valid()
      ensures externalVars == None && updates == None && applied == []
      ensures extCtxItem == None && extCtxItemType == None
      ensures dateTime == None && date == None && time == None
    {
      externalVars := None;
      updates := None;
      applied := [];
      extCtxItem := None;
      extCtxItemType := None;
      dateTime := None;
      date := None;
      time := None;
    }

    /** addPendingUpdate: the list is created on first use; ops keep their order. */
    method AddPendingUpdate(op: UpdateOp)
      modifies this`updates
      ensures old(updates).None? ==> updates == Some([op])
      ensures old(updates).Some? ==> updates == Some(old(updates).value + [op])
    {
      if updates.None? {
        updates := Some([]);
      }
      var list := updates.value;
      assert old(updates).None? ==> list + [op] == [op];
      updates := Some(list + [op]);
    }

    /** applyUpdates: the pending list, if there is one, is applied. */
    method ApplyUpdates()
      modifies this`applied
      ensures updates.None? ==> applied == old(applied)
      ensures updates.Some? ==> applied == old(applied) + [updates.value]
    {
      if updates.Some? {
        applied := applied + [updates.value];
      }
    }

    method SetUpdateList(list: Option<seq<UpdateOp>>)
      modifies this`updates
      ensures updates == list
    {
      updates := list;
    }

    /** bind: the name is bound to the sequence (possibly null), replacing an
      * earlier binding; the table is created on first use. */
    method Bind(name: QNm, s: Sequence)
      modifies this`externalVars
      ensures externalVars.Some?
      ensures old(externalVars).None? ==> externalVars.value == map[name := s]
      ensures old(externalVars).Some? ==> externalVars.value == old(externalVars).value[name := s]
      ensures IsBound(name) && Resolve(name) == s
      ensures forall n :: n != name ==> IsBound(n) == old(IsBound(n)) && Resolve(n) == old(Resolve(n))
    {
      if externalVars.None? {
        externalVars := Some(map[]);
      }
      externalVars := Some(externalVars.value[name := s]);
    }

    /** resolve: the bound sequence, or null when the name is unbound. */
    function Resolve(name: QNm): (r: Sequence)
      reads this
      ensures !IsBound(name) ==> r == Null
    {
      if externalVars.Some? && name in externalVars.value then externalVars.value[name] else Null
    }

    function IsBound(name: QNm): bool
      reads this
    {
      externalVars.Some? && name in externalVars.value
    }

    /** setContextItem: the item is replaced; its type is recorded only for a
      * non-null item, so clearing the item keeps the previous type. */
    method SetContextItem(item: Option<Item>)
      modifies this`extCtxItem, this`extCtxItemType
      ensures extCtxItem == item
      ensures item.Some? ==> extCtxItemType == Some(TypeOf(item.value))
      ensures item.None? ==> extCtxItemType == old(extCtxItemType)
    {
      extCtxItem := item;
      if item.Some? {
        extCtxItemType := Some(TypeOf(item.value));
      }
    }

    /** getDateTime: read from the clock (`now`) on the first call only. */
    method GetDateTime(now: int) returns (r: DateTime)
      requires Valid()
      modifies this`dateTime
      ensures Valid() && dateTime == Some(r)
      ensures old(dateTime).Some? ==> r == old(dateTime).value
      ensures old(dateTime).None? ==> r == DateTime(now)
    {
      if dateTime.None? {
        dateTime := Some(DateTime(now));
      }
      r := dateTime.value;
    }

    /** getDate: computed once, from the (possibly just fixed) dateTime. */
    method GetDate(now: int) returns (r: Date)
      requires Valid()
      modifies this`dateTime, this`date
      ensures Valid() && date == Some(r) && dateTime.Some? && r == DateOf(dateTime.value)
      ensures old(date).Some? ==> r == old(date).value && dateTime == old(dateTime)
      ensures old(dateTime).Some? ==> dateTime == old(dateTime)
    {
      if date.None? {
        var dt := GetDateTime(now);
        date := Some(DateOf(dt));
      }
      r := date.value;
    }

    /** getTime: computed once, from the (possibly just fixed) dateTime. */
    method GetTime(now: int) returns (r: Time)
      requires Valid()
      modifies this`dateTime, this`time
      ensures Valid() && time == Some(r) && dateTime.Some? && r == TimeOf(dateTime.value)
      ensures old(time).Some? ==> r == old(time).value && dateTime == old(dateTime)
      ensures old(dateTime).Some? ==> dateTime == old(dateTime)
    {
      if time.None? {
        var dt := GetDateTime(now);
        time := Some(TimeOf(dt));
      }
      r := time.value;
    }
  }

  /** Whatever the clock says at each call, the date and the time a query
    * sees come from one and the same dateTime, the first one read. */
  method DateAndTimeAgree(ctx: BrackitQueryContext, now1: int, now2: int, now3: int)
      returns (dt: DateTime, d: Date, t: Time)
    requires ctx.Valid() && ctx.dateTime.None?
    modifies ctx
    ensures d == DateOf(dt) && t == TimeOf(dt) && dt == DateTime(now1)
  {
    dt := ctx.GetDateTime(now1);
    d := ctx.GetDate(now2);
    t := ctx.GetTime(now3);
  }
}
