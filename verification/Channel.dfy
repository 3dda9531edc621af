/** The sending side of the data protocol: its state, the queue of requests and the idle
    event, of which three flags tell what is pending. */
module Channel {
  import opened CStrings
  import opened Framing
  import opened Requests

  datatype EventType = EvTimeout | EvRead | EvOther

  class RequestChannel {
    var waiting: bool                      // state == WAIT_FOR_RESPONSE
    var lastReqTblName: string
    var outstandingRequests: seq<string>
    var timer: bool                        // the timer of idle_event is running
    var expired: bool                      // it has run out, and the callback is due
    var active: bool                       // a reply has activated idle_event
    var wire: string                       // the bytes transferred

    ghost var model: State
    ghost var run: seq<Action>

    /** The variables are those of the model. */
    ghost predicate SameFlags()
      reads this
    {
      && lastReqTblName == model.lastReq && wire == model.wire && waiting == model.waiting
      && timer == model.timer && expired == model.expired && active == model.active
    }

    /** The variables and the queue are those of the model. */
    ghost predicate Follows()
      reads this
    {
      && SameFlags() && |outstandingRequests| == |model.queue| && Known(model)
      && forall j :: 0 <= j < |outstandingRequests| ==> outstandingRequests[j] == model.submitted[model.queue[j]]
    }

    ghost predicate Valid()
      reads this
    {
      model == After(run) && Possible(run) && Follows()
    }

    constructor ()
      ensures Valid() && run == [] && !waiting
    {
      waiting, lastReqTblName, outstandingRequests, wire := false, "", [], "";
      timer, expired, active := false, false, false;
      model, run := START, [];
    }

    /** The name of the table a message asks for (lines 276-288). */
    method TableName(message: string) returns (s: string)
      requires IsQuestion(message)
      ensures s == RequestName(message)
    {
      s := message[1..];
      var i := 0;
      while i < |s|
        invariant 0 <= i <= |s| && s == message[1..]
        invariant forall j :: 1 <= j <= i && j < |s| ==> s[j] != '|'
      {
        i := i + 1;
        if i < |s| && s[i] == '|' {
          FirstAtUnique(s[1..], '|', i - 1);
          assert s[..i] == [s[0]] + s[1..][..i - 1];
          return s[..i];
        }
      }
      if s != "" {
        FirstAtUnique(s[1..], '|', |s| - 1);
        assert s == [s[0]] + s[1..];
      }
    }

    lemma FirstAtUnique(s: string, c: char, k: nat)
      requires k <= |s| && (k < |s| ==> s[k] == c) && forall j :: 0 <= j < k ==> s[j] != c
      ensures FirstAt(s, c) == k
    {
    }

    /** event_add: starts the timer, which takes an event that is due because of its timer off
        the list. */
    method EventAdd()
      modifies this`timer, this`expired, this`active
      ensures timer && !expired && active == (old(active) && !old(expired))
    {
      if expired {
        expired, active := false, false;
      }
      timer := true;
    }

    /** Puts a message on the wire (lines 265-291). */
    method Send(message: string, ghost i: nat)
      requires i < |model.submitted| && model.submitted[i] == message && SameFlags()
      modifies this`waiting, this`lastReqTblName, this`timer, this`expired, this`active, this`wire, this`model
      ensures model == Transmit(old(model), i) && SameFlags()
      ensures model.submitted == old(model).submitted && model.queue == old(model).queue
    {
      hide RequestName;
      model := Transmit(model, i);
      wire := wire + [STX];
      wire := wire + message;
      wire := wire + [ETX];
      assert wire == old(wire) + ([STX] + message + [ETX]);
      if |message| > 0 {
        if message[0] == '?' {
          var s := TableName(message);
          EventAdd();
          waiting := true;
          lastReqTblName := s;
        }
      }
    }

    lemma RunGrows(a: Action)
      requires Possible(run) && Enabled(After(run), a)
      ensures Possible(run + [a]) && After(run + [a]) == Next(After(run), a)
    {
      assert (run + [a])[..|run|] == run;
      forall j | 0 <= j < |run + [a]|
        ensures Enabled(After((run + [a])[..j]), (run + [a])[j])
      {
        if j < |run| {
          assert (run + [a])[..j] == run[..j];
        }
      }
    }

    /** oris_protocol_data_write */
    method Write(message: string)
      requires Valid()
      modifies this
      ensures Valid() && run == old(run) + [Submit(message)]
    {
      hide After, Possible, Transmit;
      RunGrows(Submit(message));
      run := run + [Submit(message)];
      ghost var n := |model.submitted|;
      model := model.(submitted := model.submitted + [message]);
      if !waiting {
        Send(message, n);
      } else {
        model := model.(queue := model.queue + [n]);
        outstandingRequests := outstandingRequests + [message];
      }
    }

    /** The timer of the idle event runs out: the event is due for a timeout, and no longer for
        anything else. */
    method TimerExpires()
      requires Valid() && timer
      modifies this
      ensures Valid() && run == old(run) + [Expire]
    {
      hide After, Possible;
      RunGrows(Expire);
      run := run + [Expire];
      model := Next(model, Expire);
      timer, expired, active := false, true, false;
    }

    /** What the callback is called for. */
    function TypeOfEvent(): EventType
      reads this
    {
      if expired && active then EvOther else if expired then EvTimeout else EvRead
    }

    /** oris_protocol_data_idle_event_cb, of which nothing is pending any more when it is called
        (lines 303-332). */
    method IdleEvent(eventType: EventType)
      requires Valid() && (expired || active) && eventType == TypeOfEvent()
      modifies this
      ensures Valid() && run == old(run) + [Callback]
    {
      hide After, Possible, Next;
      RunGrows(Callback);
      run := run + [Callback];
      timer, expired, active := false, false, false;
      if !(eventType == EvTimeout || eventType == EvRead) {
        IgnoredIsQuiet(model);
        model := model.Quiet();
        return;
      }
      CallbackFires(model);
      waiting := false;
      model := model.Quiet().(waiting := false);
      SendNext();
    }

    lemma IgnoredIsQuiet(s: State)
      requires Known(s) && s.Ignored()
      ensures Next(s, Callback) == s.Quiet()
    {
    }

    lemma CallbackFires(s: State)
      requires Known(s) && !s.Ignored()
      ensures var r := s.Quiet().(waiting := false);
        Next(s, Callback) == if s.queue == [] then r else Transmit(r.(queue := s.queue[1..]), s.queue[0])
    {
      hide Transmit;
    }

    /** Sends the first queued message, if there is one (lines 320-327). */
    method SendNext()
      requires Follows()
      modifies this
      ensures Follows() && run == old(run)
      ensures var s := old(model);
        model == if s.queue == [] then s else Transmit(s.(queue := s.queue[1..]), s.queue[0])
    {
      hide Transmit;
      if outstandingRequests == [] {
        return;
      }
      ghost var i := model.queue[0];
      var request := outstandingRequests[0];
      outstandingRequests := outstandingRequests[1..];
      model := model.(queue := model.queue[1..]);
      Send(request, i);
    }

    /** A table was completed by a line (lines 214-221). */
    method TableCompleted(tblName: string, line: string)
      requires Valid()
      modifies this
      ensures Valid() && run == old(run) + [Completed(tblName, line)]
      ensures outstandingRequests == old(outstandingRequests) && wire == old(wire)
    {
      hide After, Possible, IsEmptyReply;
      RunGrows(Completed(tblName, line));
      run := run + [Completed(tblName, line)];
      model := Next(model, Completed(tblName, line));
      if waiting {
        var empty := IsEmpty(lastReqTblName, line);
        if tblName == lastReqTblName || empty {
          waiting := false;
          active := true;
        }
      }
    }

    /** is_empty_reply */
    method IsEmpty(expTblName: string, reply: string) returns (retval: bool)
      ensures retval == IsEmptyReply(expTblName, reply)
    {
      retval := |reply| >= |expTblName| && reply[..|expTblName|] == expTblName;
      if retval {
        retval := |reply| > |expTblName| && reply[|expTblName|] == '!';
        if retval {
          retval := |reply| >= 2 && reply[|reply| - 1] == '0' && reply[|reply| - 2] == '|';
        }
      }
    }
  }
}
