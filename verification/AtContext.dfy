/**
 The AT channel's context object: the reader's processLine on the fields under
 commandmutex, and the list of intermediate responses that is built backwards and
 flipped in place before it is handed over.
 */
module AtContext {
  import opened Bytes
  import opened AtDispatch

  /** The line of a node never changes once it is in the list. */
  class ATLine {
    const line: string
    var next: ATLine?

    constructor (line: string, next: ATLine?)
      ensures this.line == line && this.next == next
    {
      this.line, this.next := line, next;
    }
  }

  /** `nodes` are the list from `head` to null. */
  ghost predicate IsList(head: ATLine?, nodes: seq<ATLine>)
    reads nodes
  {
    && head == (if nodes == [] then null else nodes[0])
    && (forall i {:trigger nodes[i].next} :: 0 <= i < |nodes| ==>
         nodes[i].next == if i + 1 < |nodes| then nodes[i + 1] else null)
    && (forall i, j :: 0 <= i < j < |nodes| ==> nodes[i] != nodes[j])
  }

  ghost function LinesOf(nodes: seq<ATLine>): (r: seq<string>)
    ensures |r| == |nodes| && forall i :: 0 <= i < |nodes| ==> r[i] == nodes[i].line
  {
    if nodes == [] then [] else [nodes[0].line] + LinesOf(nodes[1..])
  }

  lemma SameLines(nodes: seq<ATLine>)
    ensures LinesOf(Reversed(nodes)) == Reversed(LinesOf(nodes))
  {
    var there, back := LinesOf(Reversed(nodes)), Reversed(LinesOf(nodes));
    forall i | 0 <= i < |nodes| ensures there[i] == back[i] {
      assert there[i] == nodes[|nodes| - 1 - i].line;
    }
  }

  class ATResponse {
    var success: bool
    var finalResponse: Option<string>
    var intermediates: ATLine?
    ghost var nodes: seq<ATLine>

    ghost predicate Valid()
      reads this, nodes
    {
      IsList(intermediates, nodes)
    }

    constructor ()
      ensures Valid() && nodes == [] && !success && finalResponse == None
    {
      success, finalResponse, intermediates, nodes := false, None, null, [];
    }

    /** reverseIntermediates */
    method ReverseIntermediates()
      requires Valid()
      modifies this`intermediates, this`nodes, (set n | n in nodes)`next
      ensures Valid() && nodes == Reversed(old(nodes))
    {
      var cur := intermediates;
      intermediates := null;
      ghost var done, rest := [], nodes;
      while cur != null
        invariant nodes == old(nodes) && Reversed(nodes) == Reversed(rest) + done
        invariant IsList(cur, rest) && IsList(intermediates, done) && Apart(rest, done)
        invariant forall n :: n in rest || n in done ==> n in nodes
        decreases |rest|
      {
        var next := cur.next;
        FlipHead(cur, intermediates, rest, done);
        intermediates := cur;
        done, rest := [rest[0]] + done, rest[1..];
        cur := next;
      }
      nodes := done;
    }
  }

  ghost predicate Apart(s: seq<ATLine>, t: seq<ATLine>) {
    forall i, j :: 0 <= i < |s| && 0 <= j < |t| ==> s[i] != t[j]
  }

  /** The first node of one list becomes the first of another. */
  method FlipHead(cur: ATLine, head: ATLine?, ghost rest: seq<ATLine>, ghost done: seq<ATLine>)
    requires IsList(cur, rest) && IsList(head, done) && Apart(rest, done)
    modifies cur`next
    ensures rest != [] && cur == rest[0]
    ensures IsList(old(cur.next), rest[1..]) && IsList(cur, [cur] + done) && Apart(rest[1..], [cur] + done)
  {
    cur.next := head;
    assert forall i :: 0 < i < |rest| ==> rest[i].next == if i + 1 < |rest| then rest[i + 1] else null;
  }

  /** strStartsWith of misc.c */
  method StrStartsWith(line: string, prefix: string) returns (b: bool)
    ensures b == StartsWith(line, prefix)
  {
    var i := 0;
    while i < |line| && i < |prefix|
      invariant i <= |line| && i <= |prefix| && line[..i] == prefix[..i]
    {
      if line[i] != prefix[i] {
        return false;
      }
      i := i + 1;
    }
    return i == |prefix|;
  }

  /** isFinalResponseError and isFinalResponseSuccess, which differ only in their table. */
  method StartsWithOneOf(line: string, table: seq<string>) returns (b: bool)
    ensures b == StartsWithAny(line, table)
  {
    for i := 0 to |table|
      invariant forall j :: 0 <= j < i ==> !StartsWith(line, table[j])
    {
      var hit := StrStartsWith(line, table[i]);
      if hit {
        return true;
      }
    }
    return false;
  }

  class Context {
    var kind: CommandType
    var responsePrefix: string
    var smsPDU: Option<string>
    var response: ATResponse?
    /** What the unsolicited handler has been called with, and what was sent after prompts. */
    var handled: seq<string>
    var sent: seq<string>

    ghost predicate Valid()
      reads this, response, if response == null then [] else response.nodes
    {
      response != null ==> response.Valid()
    }

    /** The fields under commandmutex, as a value. */
    ghost function View(): Slot
      reads this, response, if response == null then [] else response.nodes
    {
      Slot(kind, responsePrefix, smsPDU,
           if response == null then None
           else Some(Response(response.success, response.finalResponse, LinesOf(response.nodes))))
    }

    constructor ()
      ensures Valid() && View().response == None && View().smsPDU == None && handled == [] && sent == []
    {
      kind, responsePrefix, smsPDU, response := NoResult, "", None, null;
      handled, sent := [], [];
    }

    method HandleUnsolicited(line: string)
      modifies this`handled
      ensures handled == old(handled) + [line]
    {
      handled := handled + [line];
    }

    /** addIntermediate: at the head of the list */
    method AddIntermediate(line: string)
      requires Valid() && response != null
      modifies response
      ensures Valid()
      ensures View() == old(View()).(response := Some(old(View()).response.value.(
                intermediates := [line] + old(View()).response.value.intermediates)))
    {
      var n := new ATLine(line, response.intermediates);
      response.intermediates := n;
      response.nodes := [n] + response.nodes;
    }

    method HandleFinalResponse(line: string, success: bool)
      requires Valid() && response != null
      modifies response
      ensures Valid()
      ensures View() == old(View()).(response := Some(old(View()).response.value.(
                success := success, finalResponse := Some(line))))
    {
      response.success := success;
      response.finalResponse := Some(line);
    }

    /** The switch on the command type. */
    method TakesAsIntermediate(line: string) returns (wanted: bool)
      requires Valid() && response != null
      ensures wanted == (Accepts(kind, responsePrefix, line)
                         && (OnlyOne(kind) ==> View().response.value.intermediates == []))
    {
      match kind {
        case NoResult =>
          return false;
        case Numeric =>
          return response.intermediates == null && line != "" && '0' <= line[0] && line[0] <= '9';
        case SingleLine =>
          wanted := StrStartsWith(line, responsePrefix);
          return response.intermediates == null && wanted;
        case MultiLine =>
          wanted := StrStartsWith(line, responsePrefix);
      }
    }

    method ProcessLine(line: string)
      requires Valid()
      modifies this, response
      ensures Valid() && response == old(response)
      ensures View() == Dispatch(old(View()), line)
      ensures handled == old(handled) + if SinkOf(old(View()), line).Unsolicited? then [line] else []
      ensures sent == old(sent) + if SinkOf(old(View()), line).Prompt? then [old(smsPDU).value] else []
    {
      if response == null {
        HandleUnsolicited(line);
        return;
      }
      var ok := StartsWithOneOf(line, FinalSuccesses);
      if ok {
        HandleFinalResponse(line, true);
        return;
      }
      var bad := StartsWithOneOf(line, FinalErrors);
      if bad {
        HandleFinalResponse(line, false);
        return;
      }
      if smsPDU.Some? && line == "> " {
        sent := sent + [smsPDU.value];
        smsPDU := None;
        return;
      }
      var wanted := TakesAsIntermediate(line);
      if wanted {
        AddIntermediate(line);
      } else {
        HandleUnsolicited(line);
      }
    }

    /** The end of at_send_command_full_nolock: the list flipped, the response handed over. */
    method HandOver() returns (r: ATResponse)
      requires Valid() && response != null
      modifies this`response, response`intermediates, response`nodes, (set n | n in response.nodes)`next
      ensures Valid() && View() == old(View()).(response := None)
      ensures r.Valid() && r == old(response)
      ensures LinesOf(r.nodes) == Reversed(old(View()).response.value.intermediates)
    {
      SameLines(response.nodes);
      response.ReverseIntermediates();
      r := response;
      response := null;
    }

    method ClearPendingCommand()
      modifies this`response, this`responsePrefix, this`smsPDU
      ensures Valid() && View() == Slot(kind, "", None, None)
    {
      response, responsePrefix, smsPDU := null, "", None;
    }
  }
}
