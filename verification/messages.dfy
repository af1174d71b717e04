/** The message map the validator fills: for each attribute that failed,
    the list of its messages, attributes in the order they first failed. */
module MessageMap {
  import opened Wrappers
  import opened Assoc

  /** The messages per attribute, in the order attributes first reported. */
  type Messages = Assoc<seq<string>>

  /** `pushMessage(attribute, message)` on a message map: the message is
      appended to the attribute's list, which is created at the end of
      the map if absent. */
  function PushMessage(ms: Messages, attribute: string, message: string): (r: Messages)
    ensures Get(r, attribute) == Some(Get(ms, attribute).GetOr([]) + [message])
    ensures forall k :: k != attribute ==> Get(r, k) == Get(ms, k)
    ensures Keys(r) == if attribute in Keys(ms) then Keys(ms) else Keys(ms) + [attribute]
  {
    var r := Put(ms, attribute, Get(ms, attribute).GetOr([]) + [message]);
    KeysSnoc(ms, attribute, Get(ms, attribute).GetOr([]) + [message]);
    r
  }

  /** The messages pushed one by one, as the `fail` callback receives
      them. */
  function PushAll(ms: Messages, attribute: string, messages: seq<string>): (r: Messages)
    ensures messages == [] ==> r == ms
    ensures messages != [] ==> Get(r, attribute) == Some(Get(ms, attribute).GetOr([]) + messages)
    ensures forall k :: k != attribute ==> Get(r, k) == Get(ms, k)
    decreases |messages|
  {
    if messages == [] then ms
    else
      var next := PushMessage(ms, attribute, messages[0]);
      var r := PushAll(next, attribute, messages[1..]);
      AppendFirst(Get(ms, attribute).GetOr([]), messages);
      r
  }

  lemma AppendFirst(earlier: seq<string>, messages: seq<string>)
    requires messages != []
    ensures earlier + [messages[0]] + messages[1..] == earlier + messages
    ensures messages[1..] == [] ==> earlier + [messages[0]] == earlier + messages
  {
    assert [messages[0]] + messages[1..] == messages;
  }

  /** The body of `passes()` from a given message map: the reports of
      each attribute pushed in order. */
  function Collect(reports: Messages, ms: Messages): (r: Messages)
    ensures (forall i :: 0 <= i < |reports| ==> reports[i].1 == []) ==> r == ms
    decreases |reports|
  {
    if reports == [] then ms
    else
      assert forall i :: 0 <= i < |reports[1..]| ==> reports[1..][i] == reports[i + 1];
      Collect(reports[1..], PushAll(ms, reports[0].0, reports[0].1))
  }

  /** The message map a run should produce: the attributes that reported
      anything, in order, each with exactly its reports. */
  function NonEmpty(reports: Messages): (r: Messages)
    ensures forall i :: 0 <= i < |r| ==> r[i].1 != []
    decreases |reports|
  {
    if reports == [] then []
    else if reports[0].1 == [] then NonEmpty(reports[1..])
    else [reports[0]] + NonEmpty(reports[1..])
  }

  /** Pushing onto the attribute of the last entry extends that entry. */
  lemma {:induction false} PushAllLast(ms: Messages, attribute: string, earlier: seq<string>, messages: seq<string>)
    requires attribute !in Keys(ms)
    ensures PushAll(ms + [(attribute, earlier)], attribute, messages) == ms + [(attribute, earlier + messages)]
    decreases |messages|
  {
    if messages != [] {
      var mm := ms + [(attribute, earlier)];
      var longer := earlier + [messages[0]];
      GetLast(ms, attribute, earlier);
      PutLast(ms, attribute, earlier, longer);
      assert PushMessage(mm, attribute, messages[0]) == ms + [(attribute, longer)];
      assert PushAll(mm, attribute, messages) == PushAll(ms + [(attribute, longer)], attribute, messages[1..]);
      PushAllLast(ms, attribute, longer, messages[1..]);
      assert longer + messages[1..] == earlier + messages;
    } else {
      assert earlier + messages == earlier;
    }
  }

  /** Pushing the messages of an attribute new to the map appends one
      entry holding them all. */
  lemma PushAllFresh(ms: Messages, attribute: string, messages: seq<string>)
    requires attribute !in Keys(ms) && messages != []
    ensures PushAll(ms, attribute, messages) == ms + [(attribute, messages)]
  {
    var first := PushMessage(ms, attribute, messages[0]);
    assert Get(ms, attribute) == None;
    assert [] + [messages[0]] == [messages[0]];
    assert first == ms + [(attribute, [messages[0]])];
    assert PushAll(ms, attribute, messages) == PushAll(first, attribute, messages[1..]);
    PushAllLast(ms, attribute, [messages[0]], messages[1..]);
    assert [messages[0]] + messages[1..] == messages;
  }

  /** The attributes of the reported entries are among the reporting
      ones, each at most once if they were. */
  lemma {:induction false} NonEmptyKeys(reports: Messages)
    ensures forall k :: k in Keys(NonEmpty(reports)) ==> k in Keys(reports)
    ensures DistinctKeys(reports) ==> DistinctKeys(NonEmpty(reports))
    decreases |reports|
  {
    if reports != [] {
      var rest := reports[1..];
      assert reports == [reports[0]] + rest;
      Cons(reports[0], rest);
      NonEmptyKeys(rest);
      if reports[0].1 != [] {
        Cons(reports[0], NonEmpty(rest));
      }
    }
  }

  /** Under distinct keys, the reported map holds an attribute's reports
      exactly when there are some. */
  lemma {:induction false} NonEmptyGet(reports: Messages, k: string)
    requires DistinctKeys(reports)
    ensures Get(NonEmpty(reports), k) ==
      (if Get(reports, k).Some? && Get(reports, k).value != [] then Get(reports, k) else None)
    decreases |reports|
  {
    if reports != [] {
      var rest := reports[1..];
      assert reports == [reports[0]] + rest;
      Cons(reports[0], rest);
      ConsGet(reports[0], rest, k);
      NonEmptyGet(rest, k);
      if reports[0].1 != [] {
        ConsGet(reports[0], NonEmpty(rest), k);
      }
    }
  }

  /** Nothing is reported exactly when every report is empty. */
  lemma {:induction false} NonEmptyEmpty(reports: Messages)
    ensures NonEmpty(reports) == [] <==> forall i :: 0 <= i < |reports| ==> reports[i].1 == []
    decreases |reports|
  {
    if reports != [] {
      NonEmptyEmpty(reports[1..]);
      assert forall i :: 1 <= i < |reports| ==> reports[i] == reports[1..][i - 1];
    }
  }

  /** Reports that are all non-empty are reported as they are. */
  lemma {:induction false} NonEmptyKeepsFull(reports: Messages)
    requires forall i :: 0 <= i < |reports| ==> reports[i].1 != []
    ensures NonEmpty(reports) == reports
    decreases |reports|
  {
    if reports != [] {
      var rest := reports[1..];
      assert forall i :: 0 <= i < |rest| ==> rest[i] == reports[i + 1];
      NonEmptyKeepsFull(rest);
      assert [reports[0]] + rest == reports;
    }
  }

  /** The first reported entry is the first non-empty report. */
  lemma {:induction false} NonEmptyFirst(reports: Messages, i: int)
    requires 0 <= i < |reports| && reports[i].1 != []
    requires forall j :: 0 <= j < i ==> reports[j].1 == []
    ensures NonEmpty(reports) != [] && NonEmpty(reports)[0] == reports[i]
    decreases i
  {
    if i > 0 {
      var rest := reports[1..];
      assert reports[0].1 == [];
      assert rest[i - 1] == reports[i];
      forall j | 0 <= j < i - 1
        ensures rest[j].1 == []
      {
        assert rest[j] == reports[j + 1];
      }
      NonEmptyFirst(rest, i - 1);
    }
  }

  /** A run from a map whose keys the reports do not mention ends with
      that map followed by the reported entries. */
  lemma {:induction false} CollectAppends(reports: Messages, ms: Messages)
    requires DistinctKeys(reports)
    requires forall k :: k in Keys(reports) ==> k !in Keys(ms)
    ensures Collect(reports, ms) == ms + NonEmpty(reports)
    decreases |reports|
  {
    if reports != [] {
      var a := reports[0].0;
      var rest := reports[1..];
      assert reports == [reports[0]] + rest;
      Cons(reports[0], rest);
      var next := PushAll(ms, a, reports[0].1);
      assert Collect(reports, ms) == Collect(rest, next);
      if reports[0].1 == [] {
        assert next == ms;
        assert NonEmpty(reports) == NonEmpty(rest);
        forall k | k in Keys(rest)
          ensures k !in Keys(ms)
        {
          assert k in Keys(reports);
        }
        CollectAppends(rest, ms);
      } else {
        PushAllFresh(ms, a, reports[0].1);
        assert (a, reports[0].1) == reports[0];
        assert next == ms + [reports[0]];
        KeysConcat(ms, [reports[0]]);
        assert Keys(next) == Keys(ms) + [a];
        forall k | k in Keys(rest)
          ensures k !in Keys(next)
        {
          assert k in Keys(reports);
        }
        CollectAppends(rest, next);
        assert NonEmpty(reports) == [reports[0]] + NonEmpty(rest);
        Regroup(ms, [reports[0]], NonEmpty(rest));
      }
    }
  }

  lemma Regroup<T>(a: seq<T>, b: seq<T>, c: seq<T>)
    ensures a + b + c == a + (b + c)
  {
  }

  /** A run never empties a map, and pushes something exactly when some
      report is non-empty, whatever the keys. */
  lemma {:induction false} CollectNonEmpty(reports: Messages, ms: Messages)
    ensures ms != [] ==> Collect(reports, ms) != []
    ensures ms == [] ==> (Collect(reports, ms) == [] <==> forall i :: 0 <= i < |reports| ==> reports[i].1 == [])
    decreases |reports|
  {
    if reports != [] {
      var next := PushAll(ms, reports[0].0, reports[0].1);
      CollectNonEmpty(reports[1..], next);
      if reports[0].1 != [] { assert reports[0].0 in Keys(next); }
      assert forall i :: 1 <= i < |reports| ==> reports[i] == reports[1..][i - 1];
    }
  }
}
