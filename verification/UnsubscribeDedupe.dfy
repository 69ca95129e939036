/** Grouping of unsubscribe candidates (mcp_servers/email_server.py). A missing field is the
    empty string; a candidate's remaining fields travel with it and are not listed. */
module UnsubscribeDedupe {
  import opened Text
  import opened Wrappers

  datatype Candidate = Candidate(
    uid: string, listId: string, methodKind: string, methodTarget: string,
    sender: string, subject: string, score: int)

  datatype Key = Key(kind: string, first: string, second: string)

  function KeyOf(c: Candidate): Key {
    var list, target := Normalize(c.listId), Normalize(c.methodTarget);
    var sender := Normalize(c.sender);
    if list != "" then Key("list", list, if target != "" then target else sender)
    else if target != "" then Key("method", Normalize(c.methodKind), target)
    else Key("sender", sender, Normalize(c.subject))
  }

  /** Case and surrounding whitespace aside. */
  predicate Alike(a: string, b: string) {
    Normalize(a) == Normalize(b)
  }

  predicate Blank(s: string) {
    forall c :: c in s ==> IsSpace(c)
  }

  lemma BlankIsEmpty(s: string)
    ensures Blank(s) <==> Normalize(s) == ""
  {
    var lo, hi := StripSplits(s);
    if lo < hi {
      assert s[lo..hi] != [] && Strip(s) != "";
      assert s[lo] == Strip(s)[0] && s[lo] in s;
    }
  }

  /** The same list and target, a sender standing in for a missing target; without a list the same
      target and kind; without a target either the same sender and subject. */
  predicate Same(a: Candidate, b: Candidate) {
    if !Blank(a.listId) || !Blank(b.listId) then
      Alike(a.listId, b.listId) && Alike(TargetOrSender(a), TargetOrSender(b))
    else if !Blank(a.methodTarget) || !Blank(b.methodTarget) then
      Alike(a.methodTarget, b.methodTarget) && Alike(a.methodKind, b.methodKind)
    else
      Alike(a.sender, b.sender) && Alike(a.subject, b.subject)
  }

  function TargetOrSender(c: Candidate): string {
    if Blank(c.methodTarget) then c.sender else c.methodTarget
  }

  /** Candidates fall together under this rule and no other. */
  lemma KeysAgreeExactly(a: Candidate, b: Candidate)
    ensures KeyOf(a) == KeyOf(b) <==> Same(a, b)
  {
    BlankIsEmpty(a.listId);
    BlankIsEmpty(b.listId);
    BlankIsEmpty(a.methodTarget);
    BlankIsEmpty(b.methodTarget);
  }

  datatype Group = Group(representative: Candidate, count: nat, uids: seq<string>)

  // ---------- What the groups are ----------

  /** The keys that occur, each once, in the order they first occur. */
  function FirstSeen(cs: seq<Candidate>): seq<Key> {
    if cs == [] then []
    else
      var keys := FirstSeen(cs[..|cs| - 1]);
      var k := KeyOf(cs[|cs| - 1]);
      if k in keys then keys else keys + [k]
  }

  function Members(cs: seq<Candidate>, k: Key): seq<Candidate> {
    if cs == [] then []
    else
      var c := cs[|cs| - 1];
      Members(cs[..|cs| - 1], k) + if KeyOf(c) == k then [c] else []
  }

  /** The earliest candidate of maximum score. */
  function Best(ms: seq<Candidate>): Candidate
    requires ms != []
  {
    var c := ms[|ms| - 1];
    if |ms| == 1 then c
    else
      var b := Best(ms[..|ms| - 1]);
      if c.score > b.score then c else b
  }

  /** The first member's uid, then the later members' uids that are not empty. */
  function Uids(ms: seq<Candidate>): seq<string>
    requires ms != []
  {
    var uid := ms[|ms| - 1].uid;
    if |ms| == 1 then [uid]
    else Uids(ms[..|ms| - 1]) + if uid != "" then [uid] else []
  }

  function SummaryOf(ms: seq<Candidate>): Group
    requires ms != []
  {
    Group(Best(ms), |ms|, Uids(ms))
  }

  function Summary(cs: seq<Candidate>, k: Key): Group
    requires Members(cs, k) != []
  {
    SummaryOf(Members(cs, k))
  }

  // ---------- The loop ----------

  /** One more member of a group: counted, its uid kept if it has one, and put forward if it scores higher. */
  function Joined(g: Group, c: Candidate): Group {
    Group(if c.score > g.representative.score then c else g.representative,
          g.count + 1,
          if c.uid != "" then g.uids + [c.uid] else g.uids)
  }

  /** A key's group so far, if it has one. */
  function GroupOf(cs: seq<Candidate>, k: Key): Option<Group> {
    if cs == [] then None
    else
      var c, before := cs[|cs| - 1], GroupOf(cs[..|cs| - 1], k);
      if KeyOf(c) != k then before
      else if before == None then Some(Group(c, 1, [c.uid]))
      else Some(Joined(before.value, c))
  }

  lemma SummaryJoins(ms: seq<Candidate>, c: Candidate)
    ensures SummaryOf(ms + [c]) == if ms == [] then Group(c, 1, [c.uid]) else Joined(SummaryOf(ms), c)
  {
    assert (ms + [c])[..|ms|] == ms;
  }

  lemma {:induction false} GroupOfIsSummary(cs: seq<Candidate>, k: Key)
    ensures GroupOf(cs, k) == if Members(cs, k) == [] then None else Some(SummaryOf(Members(cs, k)))
  {
    if cs != [] {
      var c, ms := cs[|cs| - 1], Members(cs[..|cs| - 1], k);
      GroupOfIsSummary(cs[..|cs| - 1], k);
      SummaryJoins(ms, c);
      assert ms + [] == ms;
    }
  }

  lemma {:induction false} SeenHasGroup(cs: seq<Candidate>, k: Key)
    ensures k in FirstSeen(cs) <==> GroupOf(cs, k).Some?
  {
    if cs != [] {
      SeenHasGroup(cs[..|cs| - 1], k);
    }
  }

  lemma {:induction false} SeenHasMembers(cs: seq<Candidate>, k: Key)
    ensures k in FirstSeen(cs) <==> Members(cs, k) != []
  {
    SeenHasGroup(cs, k);
    GroupOfIsSummary(cs, k);
  }

  /** An insertion-ordered dictionary, as its keys in order and the value of each, holds the groups of cs. */
  ghost predicate Grouped(cs: seq<Candidate>, order: seq<Key>, deduped: map<Key, Group>) {
    && order == FirstSeen(cs)
    && (forall k :: k in deduped <==> k in order)
    && (forall k :: k in deduped ==> GroupOf(cs, k) == Some(deduped[k]))
  }

  lemma OneMore(cs: seq<Candidate>, c: Candidate, k: Key)
    ensures GroupOf(cs + [c], k) ==
              if KeyOf(c) != k then GroupOf(cs, k)
              else if GroupOf(cs, k) == None then Some(Group(c, 1, [c.uid]))
              else Some(Joined(GroupOf(cs, k).value, c))
    ensures FirstSeen(cs + [c]) == if KeyOf(c) in FirstSeen(cs) then FirstSeen(cs) else FirstSeen(cs) + [KeyOf(c)]
  {
    assert (cs + [c])[..|cs|] == cs;
  }

  lemma NewGroup(cs: seq<Candidate>, c: Candidate, key: Key, order: seq<Key>, deduped: map<Key, Group>)
    requires Grouped(cs, order, deduped) && key == KeyOf(c) && key !in deduped
    ensures Grouped(cs + [c], order + [key], deduped[key := Group(c, 1, [c.uid])])
  {
    var more := deduped[key := Group(c, 1, [c.uid])];
    OneMore(cs, c, key);
    SeenHasGroup(cs, key);
    forall k | k in more ensures GroupOf(cs + [c], k) == Some(more[k]) {
      OneMore(cs, c, k);
    }
  }

  lemma SameGroup(cs: seq<Candidate>, c: Candidate, key: Key, order: seq<Key>, deduped: map<Key, Group>)
    requires Grouped(cs, order, deduped) && key == KeyOf(c) && key in deduped
    ensures Grouped(cs + [c], order, deduped[key := Joined(deduped[key], c)])
  {
    var more := deduped[key := Joined(deduped[key], c)];
    OneMore(cs, c, key);
    forall k | k in more ensures GroupOf(cs + [c], k) == Some(more[k]) {
      OneMore(cs, c, k);
    }
  }

  method Join(group: Group, c: Candidate) returns (existing: Group)
    ensures existing == Joined(group, c)
  {
    existing := group.(count := group.count + 1);
    if c.uid != "" {
      existing := existing.(uids := existing.uids + [c.uid]);
    }
    if c.score > existing.representative.score {
      existing := Group(c, existing.count, existing.uids);
    }
  }

  method Values(order: seq<Key>, deduped: map<Key, Group>) returns (result: seq<Group>)
    requires forall i :: 0 <= i < |order| ==> order[i] in deduped
    ensures |result| == |order|
    ensures forall i :: 0 <= i < |order| ==> result[i] == deduped[order[i]]
  {
    result := [];
    for i := 0 to |order|
      invariant |result| == i
      invariant forall j :: 0 <= j < i ==> result[j] == deduped[order[j]]
    {
      result := result + [deduped[order[i]]];
    }
  }

  lemma GroupedIsSummary(cs: seq<Candidate>, order: seq<Key>, deduped: map<Key, Group>, i: nat)
    requires Grouped(cs, order, deduped) && i < |order|
    ensures Members(cs, order[i]) != [] && deduped[order[i]] == Summary(cs, order[i])
  {
    assert order[i] in deduped;
    GroupOfIsSummary(cs, order[i]);
  }

  lemma {:induction false} MembersHaveKey(cs: seq<Candidate>, k: Key)
    ensures forall c :: c in Members(cs, k) ==> KeyOf(c) == k
  {
    if cs != [] { MembersHaveKey(cs[..|cs| - 1], k); }
  }

  /** A group is put forward under its own key. */
  lemma RepresentativeHasKey(cs: seq<Candidate>, k: Key)
    requires Members(cs, k) != []
    ensures KeyOf(Summary(cs, k).representative) == k
  {
    var ms := Members(cs, k);
    MembersHaveKey(cs, k);
    BestIsEarliestMaximum(ms);
    var i :| 0 <= i < |ms| && ms[i] == Best(ms);
    assert ms[i] in ms;
  }

  method Dedupe(candidates: seq<Candidate>) returns (result: seq<Group>)
    ensures |result| == |FirstSeen(candidates)|
    ensures forall i :: 0 <= i < |result| ==>
              && Members(candidates, FirstSeen(candidates)[i]) != []
              && result[i] == Summary(candidates, FirstSeen(candidates)[i])
              && KeyOf(result[i].representative) == FirstSeen(candidates)[i]
    ensures TotalCount(result) == |candidates|
  {
    var order: seq<Key> := [];
    var deduped: map<Key, Group> := map[];
    for i := 0 to |candidates|
      invariant Grouped(candidates[..i], order, deduped)
    {
      var c := candidates[i];
      var key := KeyOf(c);
      assert candidates[..i + 1] == candidates[..i] + [c];
      if key !in deduped {
        NewGroup(candidates[..i], c, key, order, deduped);
        order := order + [key];
        deduped := deduped[key := Group(c, 1, [c.uid])];
      } else {
        SameGroup(candidates[..i], c, key, order, deduped);
        var existing := Join(deduped[key], c);
        deduped := deduped[key := existing];
      }
    }
    assert candidates[..|candidates|] == candidates;
    result := Values(order, deduped);
    forall i | 0 <= i < |order|
      ensures Members(candidates, order[i]) != [] && result[i] == Summary(candidates, order[i])
      ensures KeyOf(result[i].representative) == order[i]
    {
      GroupedIsSummary(candidates, order, deduped, i);
      RepresentativeHasKey(candidates, order[i]);
    }
    CountsOfGroups(candidates, order, result);
    CountsAddUp(candidates);
  }

  function TotalCount(groups: seq<Group>): nat {
    if groups == [] then 0 else TotalCount(groups[..|groups| - 1]) + groups[|groups| - 1].count
  }

  lemma {:induction false} CountsOfGroups(cs: seq<Candidate>, keys: seq<Key>, groups: seq<Group>)
    requires |groups| == |keys| && forall i :: 0 <= i < |keys| ==> groups[i].count == |Members(cs, keys[i])|
    ensures TotalCount(groups) == CountSum(cs, keys)
  {
    if keys != [] {
      CountsOfGroups(cs, keys[..|keys| - 1], groups[..|keys| - 1]);
    }
  }

  // ---------- What that means ----------

  /** The output keys are pairwise distinct and are exactly the keys of the input. */
  lemma {:induction false} KeysAreDistinctAndComplete(cs: seq<Candidate>)
    ensures forall i, j :: 0 <= i < j < |FirstSeen(cs)| ==> FirstSeen(cs)[i] != FirstSeen(cs)[j]
    ensures forall k :: k in FirstSeen(cs) <==> exists i :: 0 <= i < |cs| && KeyOf(cs[i]) == k
  {
    if cs != [] {
      var front, last := cs[..|cs| - 1], cs[|cs| - 1];
      KeysAreDistinctAndComplete(front);
      assert cs == front + [last];
      forall k ensures k in FirstSeen(cs) <==> exists i :: 0 <= i < |cs| && KeyOf(cs[i]) == k {
        if k in FirstSeen(front) {
          var i :| 0 <= i < |front| && KeyOf(front[i]) == k;
          assert KeyOf(cs[i]) == k;
        }
        if i :| 0 <= i < |cs| && KeyOf(cs[i]) == k {
          if i < |front| { assert KeyOf(front[i]) == k; }
        }
        if k == KeyOf(last) { assert KeyOf(cs[|cs| - 1]) == k; }
      }
    }
  }

  /** The position at which a key first occurs. */
  function FirstAt(cs: seq<Candidate>, k: Key): nat {
    if cs == [] || KeyOf(cs[0]) == k then 0 else 1 + FirstAt(cs[1..], k)
  }

  lemma {:induction false} FirstAtExtends(front: seq<Candidate>, last: Candidate, k: Key)
    ensures k in FirstSeen(front) ==> FirstAt(front + [last], k) == FirstAt(front, k) < |front|
    ensures k !in FirstSeen(front) ==> FirstAt(front + [last], k) >= |front|
  {
    FirstAtBound(front, k);
    FirstAtBound(front + [last], k);
    KeysAreDistinctAndComplete(front);
    var all := front + [last];
    if k in FirstSeen(front) {
      var n := FirstAt(front, k);
      assert KeyOf(all[n]) == k;
      assert forall i :: 0 <= i < n ==> all[i] == front[i];
    } else {
      assert forall i :: 0 <= i < |front| ==> all[i] == front[i];
    }
  }

  lemma {:induction false} FirstAtBound(cs: seq<Candidate>, k: Key)
    ensures FirstAt(cs, k) <= |cs|
    ensures FirstAt(cs, k) < |cs| ==> KeyOf(cs[FirstAt(cs, k)]) == k
    ensures forall i :: 0 <= i < FirstAt(cs, k) ==> KeyOf(cs[i]) != k
  {
    if cs != [] && KeyOf(cs[0]) != k {
      FirstAtBound(cs[1..], k);
      forall i | 0 <= i < FirstAt(cs, k) ensures KeyOf(cs[i]) != k {
        if i > 0 { assert cs[i] == cs[1..][i - 1]; }
      }
    }
  }

  /** Groups come out in the order their keys first occur. */
  lemma {:induction false} OutputFollowsFirstOccurrence(cs: seq<Candidate>)
    ensures forall i, j :: 0 <= i < j < |FirstSeen(cs)| ==>
        FirstAt(cs, FirstSeen(cs)[i]) < FirstAt(cs, FirstSeen(cs)[j])
  {
    if cs != [] {
      var front, last := cs[..|cs| - 1], cs[|cs| - 1];
      OutputFollowsFirstOccurrence(front);
      assert cs == front + [last];
      var keys := FirstSeen(cs);
      forall i, j | 0 <= i < j < |keys| ensures FirstAt(cs, keys[i]) < FirstAt(cs, keys[j]) {
        FirstAtExtends(front, last, keys[i]);
        FirstAtExtends(front, last, keys[j]);
        assert keys[i] == FirstSeen(front)[i];
      }
    }
  }

  /** The representative belongs to the group, nothing in the group scores higher, and nothing
      before it scores as high. */
  lemma {:induction false} BestIsEarliestMaximum(ms: seq<Candidate>)
    requires ms != []
    ensures exists i :: 0 <= i < |ms| && ms[i] == Best(ms)
                        && (forall j :: 0 <= j < |ms| ==> ms[j].score <= ms[i].score)
                        && (forall j :: 0 <= j < i ==> ms[j].score < ms[i].score)
  {
    if |ms| == 1 {
      assert ms[0] == Best(ms);
    } else {
      var front := ms[..|ms| - 1];
      BestIsEarliestMaximum(front);
      var i :| 0 <= i < |front| && front[i] == Best(front)
               && (forall j :: 0 <= j < |front| ==> front[j].score <= front[i].score)
               && (forall j :: 0 <= j < i ==> front[j].score < front[i].score);
      var n := if ms[|front|].score > front[i].score then |front| else i;
      assert ms[n] == Best(ms);
      forall j | 0 <= j < |ms| ensures ms[j].score <= ms[n].score {
        if j < |front| { assert ms[j] == front[j]; }
      }
      forall j | 0 <= j < n ensures ms[j].score < ms[n].score {
        assert ms[j] == front[j];
      }
    }
  }

  function CountSum(cs: seq<Candidate>, keys: seq<Key>): nat {
    if keys == [] then 0 else CountSum(cs, keys[..|keys| - 1]) + |Members(cs, keys[|keys| - 1])|
  }

  lemma {:induction false} OneMoreInSum(front: seq<Candidate>, last: Candidate, keys: seq<Key>)
    requires forall i, j :: 0 <= i < j < |keys| ==> keys[i] != keys[j]
    ensures CountSum(front + [last], keys) == CountSum(front, keys) + if KeyOf(last) in keys then 1 else 0
  {
    if keys != [] {
      var rest, k := keys[..|keys| - 1], keys[|keys| - 1];
      assert keys == rest + [k];
      OneMoreInSum(front, last, rest);
      assert (front + [last])[..|front|] == front;
    }
  }

  /** Every candidate is counted once: the group counts add up to the input length. */
  lemma {:induction false} CountsAddUp(cs: seq<Candidate>)
    ensures CountSum(cs, FirstSeen(cs)) == |cs|
  {
    if cs != [] {
      var front, last := cs[..|cs| - 1], cs[|cs| - 1];
      assert cs == front + [last];
      var keys, k := FirstSeen(front), KeyOf(last);
      CountsAddUp(front);
      KeysAreDistinctAndComplete(front);
      OneMoreInSum(front, last, keys);
      if k !in keys {
        assert (keys + [k])[..|keys|] == keys;
        SeenHasMembers(front, k);
        assert Members(cs, k) == [last];
      }
    }
  }

  ghost predicate Ascending(at: seq<nat>, n: nat) {
    && (forall i :: 0 <= i < |at| ==> at[i] < n)
    && (forall i, j :: 0 <= i < j < |at| ==> at[i] < at[j])
  }

  lemma OnePositionMore(at: seq<nat>, n: nat)
    requires Ascending(at, n)
    ensures Ascending(at + [n], n + 1) && forall j: nat :: j in at + [n] <==> j in at || j == n
  {
  }

  /** A group is its key's candidates, all of them, in the order of the input. */
  lemma {:induction false} MembersKeepOrder(cs: seq<Candidate>, k: Key) returns (at: seq<nat>)
    ensures Ascending(at, |cs|) && |at| == |Members(cs, k)|
    ensures forall j: nat :: j in at <==> j < |cs| && KeyOf(cs[j]) == k
    ensures forall i :: 0 <= i < |at| ==> Members(cs, k)[i] == cs[at[i]]
  {
    at := [];
    if cs != [] {
      var n, front := |cs| - 1, cs[..|cs| - 1];
      at := MembersKeepOrder(front, k);
      OnePositionMore(at, n);
      forall j: nat | j < n ensures j in at <==> KeyOf(cs[j]) == k {
        assert cs[j] == front[j];
      }
      if KeyOf(cs[n]) == k {
        at := at + [n];
      }
    }
  }

  lemma LaterUid(front: seq<Candidate>, c: Candidate, at: seq<nat>)
    requires front != [] && Ascending(at, |front|) && |at| == |Uids(front)|
    requires forall i :: 0 <= i < |at| ==> Uids(front)[i] == front[at[i]].uid
    ensures var next := if c.uid != "" then at + [|front|] else at;
            && |next| == |Uids(front + [c])|
            && forall i :: 0 <= i < |next| ==> Uids(front + [c])[i] == (front + [c])[next[i]].uid
  {
    assert (front + [c])[..|front|] == front;
  }

  lemma LaterPosition(front: seq<Candidate>, c: Candidate, at: seq<nat>)
    requires front != [] && Ascending(at, |front|)
    requires forall j: nat :: j in at <==> j < |front| && (j == 0 || front[j].uid != "")
    ensures var next, ms := if c.uid != "" then at + [|front|] else at, front + [c];
            && Ascending(next, |ms|)
            && forall j: nat :: j in next <==> j < |ms| && (j == 0 || ms[j].uid != "")
  {
    OnePositionMore(at, |front|);
  }

  /** A group's uids are its first member's, empty or not, and every later one that is not empty, in order. */
  lemma {:induction false} UidsKeepOrder(ms: seq<Candidate>) returns (at: seq<nat>)
    requires ms != []
    ensures Ascending(at, |ms|) && |at| == |Uids(ms)|
    ensures forall j: nat :: j in at <==> j < |ms| && (j == 0 || ms[j].uid != "")
    ensures forall i :: 0 <= i < |at| ==> Uids(ms)[i] == ms[at[i]].uid
  {
    var n := |ms| - 1;
    if n == 0 {
      at := [0];
    } else {
      var front := ms[..n];
      at := UidsKeepOrder(front);
      assert ms == front + [ms[n]];
      LaterPosition(front, ms[n], at);
      LaterUid(front, ms[n], at);
      at := if ms[n].uid != "" then at + [n] else at;
    }
  }

  /** Two candidates share a group exactly when their keys agree: a group is all of its key's
      candidates and no others. */
  lemma {:induction false} MembersAreTheKeysCandidates(cs: seq<Candidate>, k: Key, c: Candidate)
    ensures multiset(Members(cs, k))[c] == if KeyOf(c) == k then multiset(cs)[c] else 0
  {
    if cs != [] {
      var front, last := cs[..|cs| - 1], cs[|cs| - 1];
      assert cs == front + [last];
      MembersAreTheKeysCandidates(front, k, c);
    }
  }
}
