/** A task's mailbox: a bounded table of slots, and when it hands out the oldest message first. */
module Mailbox {

  const MAX_MSG_LENGTH := 64

  datatype Option<T> = None | Some(value: T)

  /** The messages in a mailbox, by slot. */
  function Inbox<T>(box: seq<Option<T>>): (inbox: seq<T>)
    ensures |inbox| <= |box|
  {
    if box == [] then []
    else if box[0].Some? then [box[0].value] + Inbox(box[1..])
    else Inbox(box[1..])
  }

  /** The first slot that is empty, or that is full, or the number of slots. */
  function FirstWith<T>(box: seq<Option<T>>, full: bool): (i: nat)
    ensures i <= |box|
    ensures i < |box| ==> box[i].Some? == full
    ensures forall j :: 0 <= j < i ==> box[j].Some? != full
  {
    if box == [] || box[0].Some? == full then 0 else
      var i := FirstWith(box[1..], full);
      assert forall j :: 0 < j < i + 1 ==> box[j] == box[1..][j - 1];
      i + 1
  }

  function Send<T>(box: seq<Option<T>>, m: T): seq<Option<T>> {
    var i := FirstWith(box, false);
    if i == |box| then box else box[i := Some(m)]
  }

  function Receive<T>(box: seq<Option<T>>): seq<Option<T>> {
    var i := FirstWith(box, true);
    if i == |box| then box else box[i := None]
  }

  // ----- what sending and receiving do to the messages -----

  lemma InboxCons<T>(x: Option<T>, rest: seq<Option<T>>)
    ensures Inbox([x] + rest) == if x.Some? then [x.value] + Inbox(rest) else Inbox(rest)
  {
    assert ([x] + rest)[1..] == rest;
  }

  /** Changing a slot after the first changes the rest. */
  lemma UpdateTail<T>(box: seq<Option<T>>, i: nat, x: Option<T>)
    requires 0 < i < |box|
    ensures Inbox(box[i := x]) == if box[0].Some? then [box[0].value] + Inbox(box[1..][i - 1 := x])
                                  else Inbox(box[1..][i - 1 := x])
  {
    assert box[i := x] == [box[0]] + box[1..][i - 1 := x];
    InboxCons(box[0], box[1..][i - 1 := x]);
  }

  function Inserted<T>(s: seq<T>, i: nat, m: T): (r: seq<T>)
    requires i <= |s|
    ensures |r| == |s| + 1
    ensures forall k :: 0 <= k < |r| ==> r[k] == if k < i then s[k] else if k == i then m else s[k - 1]
  {
    s[..i] + [m] + s[i..]
  }

  lemma InsertedFront<T>(s: seq<T>, m: T)
    ensures Inserted(s, 0, m) == [m] + s
  {
  }

  lemma InsertedCons<T>(x: T, s: seq<T>, i: nat, m: T)
    requires i <= |s|
    ensures Inserted([x] + s, i + 1, m) == [x] + Inserted(s, i, m)
  {
    assert ([x] + s)[..i + 1] == [x] + s[..i] && ([x] + s)[i + 1..] == s[i..];
  }

  /** Sending into a mailbox whose first slot is full sends into the rest. */
  lemma SendTail<T>(box: seq<Option<T>>, m: T)
    requires box != [] && box[0].Some?
    ensures Inbox(box) == [box[0].value] + Inbox(box[1..])
    ensures Inbox(Send(box, m)) == [box[0].value] + Inbox(Send(box[1..], m))
  {
    var i := FirstWith(box, false);
    if i < |box| { UpdateTail(box, i, Some(m)); }
  }

  /** A message goes in where the first gap is, which may be before older ones. */
  lemma {:induction false} SendInbox<T>(box: seq<Option<T>>, m: T)
    ensures var i := FirstWith(box, false);
      && i <= |Inbox(box)|
      && (i == |box| <==> |Inbox(box)| == |box|)
      && (i < |box| ==> Inbox(Send(box, m)) == Inserted(Inbox(box), i, m))
  {
    if box == [] {
    } else if box[0].None? {
      assert box[0 := Some(m)] == [Some(m)] + box[1..];
      InboxCons(Some(m), box[1..]);
      InsertedFront(Inbox(box), m);
    } else {
      SendInbox(box[1..], m);
      SendTail(box, m);
      InsertedCons(box[0].value, Inbox(box[1..]), FirstWith(box[1..], false), m);
    }
  }

  /** Receiving from a mailbox whose first slot is full empties that slot. */
  lemma ReceiveFront<T>(box: seq<Option<T>>)
    requires box != [] && box[0].Some?
    ensures Inbox(box) == [box[0].value] + Inbox(Receive(box))
  {
    assert Receive(box) == [None] + box[1..];
    InboxCons(None, box[1..]);
  }

  /** Receiving from a mailbox whose first slot is empty receives from the rest. */
  lemma ReceiveTail<T>(box: seq<Option<T>>)
    requires box != [] && box[0].None?
    ensures FirstWith(box, true) == FirstWith(box[1..], true) + 1
    ensures Inbox(box) == Inbox(box[1..])
    ensures Inbox(Receive(box)) == Inbox(Receive(box[1..]))
  {
    var i := FirstWith(box, true);
    if i < |box| { UpdateTail(box, i, None); }
  }

  /** What is received is the first of the messages by slot, and the others stay. */
  lemma {:induction false} ReceiveInbox<T>(box: seq<Option<T>>)
    ensures var i := FirstWith(box, true);
      && (i == |box| <==> Inbox(box) == [])
      && (i < |box| ==> Inbox(box) == [box[i].value] + Inbox(Receive(box)))
  {
    if box == [] {
    } else if box[0].Some? {
      ReceiveFront(box);
    } else {
      ReceiveInbox(box[1..]);
      ReceiveTail(box);
      var i := FirstWith(box, true);
      assert i < |box| ==> box[i] == box[1..][i - 1];
    }
  }

  // ----- oldest first -----

  /** No gap before a message. */
  predicate Compact<T>(box: seq<Option<T>>) {
    FirstWith(box, false) == |Inbox(box)|
  }

  /** Messages are numbered as they are sent. */
  predicate Increasing(inbox: seq<int>) {
    forall i, j :: 0 <= i < j < |inbox| ==> inbox[i] < inbox[j]
  }

  predicate Older(inbox: seq<int>, next: int) {
    forall i :: 0 <= i < |inbox| ==> inbox[i] < next
  }

  lemma InsertInOrderIff(inbox: seq<int>, i: nat, next: int)
    requires Increasing(inbox) && Older(inbox, next) && i <= |inbox|
    ensures Increasing(Inserted(inbox, i, next)) <==> i == |inbox|
    ensures Older(Inserted(inbox, i, next), next + 1)
  {
    if i < |inbox| {
      assert Inserted(inbox, i, next)[i] == next && Inserted(inbox, i, next)[i + 1] == inbox[i];
    }
  }

  /** A send keeps the order of arrival exactly when there is no gap, or no room. */
  lemma SendInOrderIff(box: seq<Option<int>>, next: int)
    requires Increasing(Inbox(box)) && Older(Inbox(box), next)
    ensures Increasing(Inbox(Send(box, next))) <==> Compact(box) || |Inbox(box)| == |box|
    ensures Older(Inbox(Send(box, next)), next + 1)
  {
    SendInbox(box, next);
    if FirstWith(box, false) < |box| {
      InsertInOrderIff(Inbox(box), FirstWith(box, false), next);
    }
  }

  lemma ReceiveInOrder(box: seq<Option<int>>, next: int)
    requires Increasing(Inbox(box)) && Older(Inbox(box), next)
    ensures Increasing(Inbox(Receive(box))) && Older(Inbox(Receive(box)), next + 1)
    ensures |Inbox(Receive(box))| == if Inbox(box) == [] then 0 else |Inbox(box)| - 1
  {
    ReceiveInbox(box);
    if FirstWith(box, true) < |box| {
      RestInOrder(box[FirstWith(box, true)].value, Inbox(Receive(box)), next);
    }
  }

  lemma RestInOrder(x: int, rest: seq<int>, next: int)
    requires Increasing([x] + rest) && Older([x] + rest, next)
    ensures Increasing(rest) && Older(rest, next + 1)
  {
    var all := [x] + rest;
    assert forall i :: 0 <= i < |rest| ==> rest[i] == all[i + 1];
  }

  lemma {:induction false} CompactIff<T>(box: seq<Option<T>>)
    ensures Compact(box) <==> forall i, j :: 0 <= i < j < |box| && box[j].Some? ==> box[i].Some?
  {
    if box == [] {
    } else if box[0].Some? {
      CompactIff(box[1..]);
      assert forall k :: 0 <= k < |box| - 1 ==> box[1..][k] == box[k + 1];
    } else {
      ReceiveInbox(box);
      assert Compact(box) <==> forall j :: 0 <= j < |box| ==> !box[j].Some?;
    }
  }

  /** Sending into a mailbox without gaps leaves none. Receiving leaves none only if it was the last message. */
  lemma GapsAfter<T>(box: seq<Option<T>>, m: T)
    ensures Compact(box) ==> Compact(Send(box, m))
    ensures Inbox(box) != [] ==> (Compact(Receive(box)) <==> |Inbox(box)| == 1)
  {
    CompactIff(box);
    CompactIff(Send(box, m));
    CompactIff(Receive(box));
    ReceiveInbox(box);
    ReceiveInbox(Receive(box));
    if Inbox(box) != [] && |Inbox(box)| > 1 {
      var i, j := FirstWith(box, true), FirstWith(Receive(box), true);
      assert i < j && Receive(box)[j].Some? && !Receive(box)[i].Some?;
    }
  }

  // ----- whole runs -----

  datatype MailOp = OpSend | OpReceive

  function Next(box: seq<Option<int>>, op: MailOp, next: int): seq<Option<int>> {
    if op.OpSend? then Send(box, next) else Receive(box)
  }

  /** Emptying the mailbox, at any point of the run, would hand out the messages in order of arrival. */
  predicate AlwaysInOrder(box: seq<Option<int>>, ops: seq<MailOp>, next: int)
    decreases |ops|
  {
    Increasing(Inbox(box)) && (ops == [] || AlwaysInOrder(Next(box, ops[0], next), ops[1..], next + 1))
  }

  /** Nothing is sent between taking a message out of several and taking the last one. `count` messages are
  in the mailbox; `partly` says that some, but not all, were taken out since it was last empty. */
  predicate DrainsBeforeSending(ops: seq<MailOp>, slots: nat, count: nat, partly: bool)
    decreases |ops|
  {
    if ops == [] then true
    else if ops[0].OpReceive? then
      if count == 0 then DrainsBeforeSending(ops[1..], slots, 0, partly)
      else DrainsBeforeSending(ops[1..], slots, count - 1, count > 1)
    else if count >= slots then DrainsBeforeSending(ops[1..], slots, count, partly)
    else !partly && DrainsBeforeSending(ops[1..], slots, count + 1, false)
  }

  lemma {:induction false} InOrderIff(box: seq<Option<int>>, ops: seq<MailOp>, next: int)
    requires Increasing(Inbox(box)) && Older(Inbox(box), next)
    ensures AlwaysInOrder(box, ops, next) <==> DrainsBeforeSending(ops, |box|, |Inbox(box)|, !Compact(box))
    decreases |ops|
  {
    if ops == [] {
    } else if ops[0].OpReceive? {
      ReceiveInOrder(box, next);
      GapsAfter(box, next);
      ReceiveInbox(box);
      InOrderIff(Receive(box), ops[1..], next + 1);
    } else {
      SendCounts(box, next);
      SendInOrderIff(box, next);
      GapsAfter(box, next);
      if |Inbox(box)| == |box| || Compact(box) {
        InOrderIff(Send(box, next), ops[1..], next + 1);
      }
    }
  }

  lemma SendCounts<T>(box: seq<Option<T>>, m: T)
    ensures |Send(box, m)| == |box|
    ensures |Inbox(box)| == |box| ==> Send(box, m) == box
    ensures |Inbox(box)| < |box| ==> |Inbox(Send(box, m))| == |Inbox(box)| + 1
  {
    SendInbox(box, m);
  }

  function Empty(slots: nat): seq<Option<int>> {
    seq(slots, _ => None)
  }

  lemma {:induction false} NothingIn(box: seq<Option<int>>)
    requires forall i :: 0 <= i < |box| ==> box[i].None?
    ensures Inbox(box) == [] && Compact(box)
  {
    if box != [] { NothingIn(box[1..]); }
  }

  /** Receiving takes the oldest message first, throughout a run from an empty mailbox, exactly when nothing is
  sent while the mailbox is partly drained. */
  lemma OldestFirstIff(slots: nat, ops: seq<MailOp>)
    ensures AlwaysInOrder(Empty(slots), ops, 0) <==> DrainsBeforeSending(ops, slots, 0, false)
  {
    NothingIn(Empty(slots));
    InOrderIff(Empty(slots), ops, 0);
  }

  /** The mailbox with each number replaced by the message it stands for. */
  function Named<T>(box: seq<Option<int>>, name: int -> T): (r: seq<Option<T>>)
    ensures |r| == |box|
  {
    seq(|box|, i requires 0 <= i < |box| => if box[i].Some? then Some(name(box[i].value)) else None)
  }

  lemma {:induction false} NamedFirst<T>(box: seq<Option<int>>, name: int -> T, full: bool)
    ensures FirstWith(Named(box, name), full) == FirstWith(box, full)
  {
    if box != [] {
      assert Named(box, name)[1..] == Named(box[1..], name);
      NamedFirst(box[1..], name, full);
    }
  }

  /** The numbers stand for any messages: where a message goes and comes from does not depend on what it says. */
  lemma NumbersStandIn<T>(box: seq<Option<int>>, name: int -> T, next: int)
    ensures Send(Named(box, name), name(next)) == Named(Send(box, next), name)
    ensures Receive(Named(box, name)) == Named(Receive(box), name)
  {
    NamedFirst(box, name, false);
    NamedFirst(box, name, true);
    NamedUpdate(box, name, FirstWith(box, false), Some(next));
    NamedUpdate(box, name, FirstWith(box, true), None);
  }

  lemma NamedUpdate<T>(box: seq<Option<int>>, name: int -> T, i: nat, x: Option<int>)
    ensures i < |box| ==>
      Named(box[i := x], name) == Named(box, name)[i := if x.Some? then Some(name(x.value)) else None]
  {
  }

  /** The witness: of three messages sent around one receive, the third comes out before the second. */
  lemma YoungerFirst()
    ensures !AlwaysInOrder(Empty(5), [OpSend, OpSend, OpReceive, OpSend], 0)
    ensures FirstWith([Some(2), Some(1), None, None, None], true) == 0
    ensures Send(Receive(Send(Send(Empty(5), 0), 1)), 2) == [Some(2), Some(1), None, None, None]
  {
    var ops := [OpSend, OpSend, OpReceive, OpSend];
    assert ops[1..] == [OpSend, OpReceive, OpSend];
    assert ops[1..][1..] == [OpReceive, OpSend];
    assert ops[1..][1..][1..] == [OpSend];
    OldestFirstIff(5, ops);
    FirstIs(Empty(5), false, 0);
    FirstIs([Some(0), None, None, None, None], false, 1);
    FirstIs([Some(0), Some(1), None, None, None], true, 0);
    FirstIs([None, Some(1), None, None, None], false, 0);
  }

  lemma FirstIs<T>(box: seq<Option<T>>, full: bool, i: nat)
    requires i < |box| && box[i].Some? == full && forall j :: 0 <= j < i ==> box[j].Some? != full
    ensures FirstWith(box, full) == i
  {
  }

  // ----- in place -----

  datatype Slot = Slot(valid: bool, message: seq<bv8>)

  /** What fits a slot of a message, given as the bytes before its terminator. */
  function Truncated(msg: seq<bv8>): (cut: seq<bv8>)
    ensures cut <= msg && |cut| <= 63 && (cut == msg || |cut| == 63)
  {
    if |msg| < MAX_MSG_LENGTH then msg else msg[..MAX_MSG_LENGTH - 1]
  }

  class TaskMailbox {
    const mailbox: array<Slot>
    var msgCount: nat

    ghost function View(): (box: seq<Option<seq<bv8>>>)
      reads mailbox
      ensures |box| == mailbox.Length
    {
      seq(mailbox.Length, i requires 0 <= i < mailbox.Length reads mailbox =>
        if mailbox[i].valid then Some(mailbox[i].message) else None)
    }

    /** The count is right, and every message fits its slot. */
    ghost predicate Valid()
      reads this, mailbox
    {
      && msgCount == |Inbox(View())|
      && forall i :: 0 <= i < mailbox.Length && mailbox[i].valid ==> |mailbox[i].message| < MAX_MSG_LENGTH
    }

    constructor (slots: nat)
      ensures Valid() && Inbox(View()) == [] && mailbox.Length == slots && fresh(mailbox)
    {
      mailbox := new Slot[slots](_ => Slot(false, []));
      msgCount := 0;
      new;
      EmptyView();
    }

    lemma EmptyView()
      requires forall i :: 0 <= i < mailbox.Length ==> !mailbox[i].valid
      ensures Inbox(View()) == []
    {
      ReceiveInbox(View());
    }

    /** What creating a task does to the mailbox of its slot. */
    method Clear()
      modifies this, mailbox
      ensures Valid() && Inbox(View()) == []
    {
      msgCount := 0;
      for m := 0 to mailbox.Length
        invariant msgCount == 0 && forall k :: 0 <= k < m ==> !mailbox[k].valid
      {
        mailbox[m] := mailbox[m].(valid := false);
      }
      EmptyView();
    }

    /** Copies a message, at most a slot's worth of it. */
    static method Copy(msg: seq<bv8>) returns (copy: seq<bv8>)
      ensures copy == Truncated(msg)
    {
      copy := [];
      var j := 0;
      while j < |msg| && j < MAX_MSG_LENGTH - 1
        invariant 0 <= j <= |msg| && j <= MAX_MSG_LENGTH - 1 && copy == msg[..j]
      {
        copy := copy + [msg[j]];
        j := j + 1;
      }
    }

    /** `alive` says whether the receiver is a live task. */
    method IpcSend(alive: bool, msg: seq<bv8>) returns (sent: bool)
      requires Valid()
      modifies this, mailbox
      ensures Valid()
      ensures sent <==> alive && |Inbox(old(View()))| < mailbox.Length
      ensures View() == if sent then Send(old(View()), Truncated(msg)) else old(View())
    {
      if !alive || msgCount >= mailbox.Length {
        return false;
      }
      ghost var box := View();
      SendInbox(box, Truncated(msg));
      for i := 0 to mailbox.Length
        invariant View() == box && Valid() && msgCount == old(msgCount)
        invariant forall k :: 0 <= k < i ==> box[k].Some?
      {
        if !mailbox[i].valid {
          assert box[i].None? && i == FirstWith(box, false);
          var copy := Copy(msg);
          mailbox[i] := Slot(true, copy);
          msgCount := msgCount + 1;
          assert View() == box[i := Some(copy)];
          return true;
        }
      }
      return false;
    }

    /** Answers with the message in the first full slot. */
    method IpcReceive(alive: bool) returns (received: bool, message: seq<bv8>)
      requires Valid()
      modifies this, mailbox
      ensures Valid()
      ensures received <==> alive && Inbox(old(View())) != []
      ensures received ==> message == Inbox(old(View()))[0]
      ensures View() == if received then Receive(old(View())) else old(View())
    {
      if !alive || msgCount == 0 {
        return false, [];
      }
      ghost var box := View();
      ReceiveInbox(box);
      for i := 0 to mailbox.Length
        invariant View() == box && Valid() && msgCount == old(msgCount)
        invariant forall k :: 0 <= k < i ==> !box[k].Some?
      {
        if mailbox[i].valid {
          assert box[i] == Some(mailbox[i].message) && i == FirstWith(box, true);
          message := Copy(mailbox[i].message);
          mailbox[i] := mailbox[i].(valid := false);
          msgCount := msgCount - 1;
          assert View() == box[i := None];
          return true, message;
        }
      }
      return false, [];
    }
  }
}
