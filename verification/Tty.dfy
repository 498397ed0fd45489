/** The terminals of kernel/tty.c: the ring of keys and the line editor that answers a read. */
module Tty {
  const TTY_IN_BYTES := 256
  const BACKSPACE := 8
  const NEWLINE := 10

  /** A key as put_key gets it, a code with flags above its low byte, and the char kept of it. */
  function Char(key: nat): nat { key % 0x100 }

  predicate Printable(ch: nat) { 32 <= ch <= 126 }

  // ------------------------------------------------------------------ the queue of keys

  function Queued(q: seq<nat>, key: nat): seq<nat> {
    if |q| < TTY_IN_BYTES then q + [key] else q
  }

  function QueuedAll(q: seq<nat>, keys: seq<nat>): seq<nat> {
    if keys == [] then q else Queued(QueuedAll(q, keys[..|keys| - 1]), keys[|keys| - 1])
  }

  /** The keys that find the queue full are the ones lost. */
  lemma {:induction false} NewestDropped(q: seq<nat>, keys: seq<nat>)
    requires |q| <= TTY_IN_BYTES
    ensures QueuedAll(q, keys) == if |q| + |keys| <= TTY_IN_BYTES then q + keys else (q + keys)[..TTY_IN_BYTES]
  {
    if keys == [] {
    } else {
      var k := |keys| - 1;
      NewestDropped(q, keys[..k]);
      assert q + keys == q + keys[..k] + [keys[k]];
    }
  }

  // ------------------------------------------------------------------ one read

  /** A read of n bytes: what it has got so far, and whether it has been answered. */
  datatype Session = Session(n: nat, text: seq<nat>, done: bool)

  /** What a char does to an open read: the text afterwards and whether that completes it. */
  function Typed(text: seq<nat>, ch: nat): seq<nat> {
    if Printable(ch) then text + [ch]
    else if ch == BACKSPACE && text != [] then text[..|text| - 1]
    else text
  }

  predicate Completes(n: nat, text: seq<nat>, ch: nat) { ch == NEWLINE || |Typed(text, ch)| >= n }

  function Took(s: Session, ch: nat): Session {
    if s.done then s else Session(s.n, Typed(s.text, ch), Completes(s.n, s.text, ch))
  }

  function Shown(text: seq<nat>, ch: nat): seq<nat> {
    if Printable(ch) || (ch == BACKSPACE && text != []) then [ch] else []
  }

  function Echo(s: Session, ch: nat): seq<nat> {
    if s.done then []
    else Shown(s.text, ch) + (if Completes(s.n, s.text, ch) then [NEWLINE] else [])
  }

  function Fed(s: Session, keys: seq<nat>): Session {
    if keys == [] then s else Took(Fed(s, keys[..|keys| - 1]), Char(keys[|keys| - 1]))
  }

  function Echoes(s: Session, keys: seq<nat>): seq<nat> {
    if keys == [] then []
    else Echoes(s, keys[..|keys| - 1]) + Echo(Fed(s, keys[..|keys| - 1]), Char(keys[|keys| - 1]))
  }

  // ------------------------------------------------------------------ what a read returns

  /** The chars a user means by some keys, however many are asked for. */
  function Edited(keys: seq<nat>): seq<nat> {
    if keys == [] then [] else Typed(Edited(keys[..|keys| - 1]), Char(keys[|keys| - 1]))
  }

  lemma EditedSnoc(keys: seq<nat>, key: nat)
    ensures Edited(keys + [key]) == Typed(Edited(keys), Char(key))
  {
    assert (keys + [key])[..|keys|] == keys;
  }

  /** A printable key and a backspace after it cancel out. */
  lemma {:induction false} EraseUndoesTyping(before: seq<nat>, key: nat, erase: nat, after: seq<nat>)
    requires Printable(Char(key)) && Char(erase) == BACKSPACE
    ensures Edited(before + [key, erase] + after) == Edited(before + after)
  {
    if after == [] {
      EditedSnoc(before, key);
      EditedSnoc(before + [key], erase);
      assert before + [key, erase] + after == before + [key] + [erase] && before + after == before;
    } else {
      var (rest, last) := (after[..|after| - 1], after[|after| - 1]);
      EraseUndoesTyping(before, key, erase, rest);
      EditedSnoc(before + [key, erase] + rest, last);
      EditedSnoc(before + rest, last);
      assert before + [key, erase] + after == before + [key, erase] + rest + [last];
      assert before + after == before + rest + [last];
    }
  }

  /** Key i completes a read of n: it is a newline, or makes the line n chars long. */
  predicate Ends(n: nat, keys: seq<nat>, i: nat)
    requires i < |keys|
  {
    Char(keys[i]) == NEWLINE || |Edited(keys[..i + 1])| == n
  }

  lemma EndsInPrefix(n: nat, keys: seq<nat>, k: nat, j: nat)
    requires j < k <= |keys|
    ensures Ends(n, keys[..k], j) <==> Ends(n, keys, j)
  {
    assert keys[..k][..j + 1] == keys[..j + 1];
  }

  /** Until some key ends it a read goes on, with the line as edited. */
  lemma {:induction false} ReadGoesOn(n: nat, keys: seq<nat>)
    requires n > 0 && forall i :: 0 <= i < |keys| ==> !Ends(n, keys, i)
    ensures Fed(Session(n, [], false), keys) == Session(n, Edited(keys), false) && |Edited(keys)| < n
  {
    if keys == [] {
    } else {
      var k := |keys| - 1;
      forall i | 0 <= i < k ensures !Ends(n, keys[..k], i) {
        EndsInPrefix(n, keys, k, i);
      }
      ReadGoesOn(n, keys[..k]);
      assert keys[..k + 1] == keys && !Ends(n, keys, k);
    }
  }

  /** The last key ends a read. */
  lemma LastKeyEnds(n: nat, keys: seq<nat>)
    requires n > 0 && keys != [] && Ends(n, keys, |keys| - 1)
    requires Fed(Session(n, [], false), keys[..|keys| - 1]) == Session(n, Edited(keys[..|keys| - 1]), false)
    requires |Edited(keys[..|keys| - 1])| < n
    ensures Fed(Session(n, [], false), keys) == Session(n, Edited(keys), true) && |Edited(keys)| <= n
  {
    assert keys[..|keys| - 1 + 1] == keys;
  }

  /** The first key that ends it answers it with the line as edited up to there, and no later key matters. */
  lemma {:induction false} ReadReturns(n: nat, keys: seq<nat>, i: nat)
    requires n > 0 && i < |keys| && Ends(n, keys, i) && forall j :: 0 <= j < i ==> !Ends(n, keys, j)
    ensures Fed(Session(n, [], false), keys) == Session(n, Edited(keys[..i + 1]), true) && |Edited(keys[..i + 1])| <= n
    decreases |keys|
  {
    var k := |keys| - 1;
    forall j | 0 <= j < k ensures Ends(n, keys[..k], j) <==> Ends(n, keys, j) {
      EndsInPrefix(n, keys, k, j);
    }
    if i == k {
      ReadGoesOn(n, keys[..k]);
      LastKeyEnds(n, keys);
      assert keys[..k + 1] == keys;
    } else {
      ReadReturns(n, keys[..k], i);
      assert keys[..k][..i + 1] == keys[..i + 1];
    }
  }

  lemma ShownTypes(before: seq<nat>, text: seq<nat>, ch: nat)
    requires ch < 0x100 && Edited(before) == text
    ensures Edited(before + Shown(text, ch)) == Typed(text, ch)
  {
    if Shown(text, ch) == [] {
      assert before + [] == before;
    } else {
      EditedSnoc(before, ch);
    }
  }

  lemma EndTypesNothing(typed: seq<nat>, ended: seq<nat>)
    requires ended == [] || ended == [NEWLINE]
    ensures Edited(typed + ended) == Edited(typed)
  {
    if ended == [] {
      assert typed + [] == typed;
    } else {
      EditedSnoc(typed, NEWLINE);
    }
  }

  lemma EchoOne(s: Session, before: seq<nat>, ch: nat)
    requires ch < 0x100 && Edited(before) == s.text
    ensures Edited(before + Echo(s, ch)) == Took(s, ch).text
  {
    if s.done {
      EndTypesNothing(before, []);
    } else {
      var (shown, ended) := (Shown(s.text, ch), if Completes(s.n, s.text, ch) then [NEWLINE] else []);
      ShownTypes(before, s.text, ch);
      EndTypesNothing(before + shown, ended);
      SeqJoins(before, shown, ended);
    }
  }

  /** What has been echoed, read as keys, spells the text: the user sees the line the program gets. */
  lemma {:induction false} EchoShowsText(n: nat, keys: seq<nat>)
    ensures var s := Session(n, [], n == 0);
            Edited(Echoes(s, keys)) == Fed(s, keys).text
  {
    if keys == [] {
    } else {
      var s := Session(n, [], n == 0);
      var k := |keys| - 1;
      EchoShowsText(n, keys[..k]);
      EchoOne(Fed(s, keys[..k]), Echoes(s, keys[..k]), Char(keys[k]));
    }
  }

  // ------------------------------------------------------------------ runs of a terminal

  lemma {:induction false} FedJoins(s: Session, a: seq<nat>, b: seq<nat>)
    ensures Fed(s, a + b) == Fed(Fed(s, a), b)
  {
    if b == [] {
      assert a + b == a;
    } else {
      FedJoins(s, a, b[..|b| - 1]);
      assert (a + b)[..|a + b| - 1] == a + b[..|b| - 1];
    }
  }

  datatype Message = Suspend(cnt: int) | Resume(procNr: int, cnt: int)

  /** The messages due when a read has gone from s to s'. */
  function Answer(s: Session, s': Session, procNr: int): seq<Message> {
    if s'.done && !s.done then [Resume(procNr, |s'.text|)] else []
  }

  /** put_key, tty_dev_write and tty_do_read. */
  datatype Event = Press(key: nat) | Poll | Read(procNr: int, n: nat)

  /** A read asked for, with the keys that have been taken from the queue since. */
  datatype Round = Round(procNr: int, n: nat, keys: seq<nat>)

  /** A terminal: the keys waiting, the last read, all messages to the file system, and all reads there have been. */
  datatype State = State(queue: seq<nat>, session: Session, procNr: int, sent: seq<Message>, rounds: seq<Round>)

  function Started(n: nat): Session { Session(n, [], n == 0) }

  /** The keys go to the last read, if there has been one. */
  function Eaten(rounds: seq<Round>, keys: seq<nat>): seq<Round> {
    if rounds == [] then []
    else
      var m := |rounds| - 1;
      rounds[m := rounds[m].(keys := rounds[m].keys + keys)]
  }

  function Next(st: State, e: Event): State {
    match e
    case Press(key) => st.(queue := Queued(st.queue, key))
    case Poll =>
      var s := Fed(st.session, st.queue);
      st.(queue := [], session := s, sent := st.sent + Answer(st.session, s, st.procNr),
          rounds := Eaten(st.rounds, st.queue))
    case Read(procNr, n) =>
      st.(session := Started(n), procNr := procNr, sent := st.sent + [Suspend(n)],
          rounds := st.rounds + [Round(procNr, n, [])])
  }

  function Fresh(): State { State([], Session(0, [], true), 0, [], []) }

  function After(events: seq<Event>): State {
    if events == [] then Fresh() else Next(After(events[..|events| - 1]), events[|events| - 1])
  }

  /** The first key from number i on that ends a read of n, or the number of keys. */
  function FirstEnd(n: nat, keys: seq<nat>, i: nat): (r: nat)
    requires i <= |keys|
    ensures i <= r <= |keys|
    ensures r < |keys| ==> Ends(n, keys, r)
    ensures forall j :: i <= j < r ==> !Ends(n, keys, j)
    decreases |keys| - i
  {
    if i == |keys| || Ends(n, keys, i) then i else FirstEnd(n, keys, i + 1)
  }

  /** What a read should be answered: nothing until a key ends it, then once, with the length of the line edited. */
  function Reply(r: Round): seq<Message> {
    var i := FirstEnd(r.n, r.keys, 0);
    if r.n > 0 && i < |r.keys| then [Resume(r.procNr, |Edited(r.keys[..i + 1])|)] else []
  }

  /** What the file system should be sent for some reads. */
  function Replies(rounds: seq<Round>): seq<Message> {
    if rounds == [] then []
    else
      var m := |rounds| - 1;
      Replies(rounds[..m]) + [Suspend(rounds[m].n)] + Reply(rounds[m])
  }

  lemma ReplyBySession(r: Round)
    ensures var s := Fed(Started(r.n), r.keys);
            Reply(r) == Answer(Session(r.n, [], false), s, r.procNr) || r.n == 0
    ensures r.n == 0 ==> Reply(r) == [] && Fed(Started(r.n), r.keys).done
  {
    if r.n == 0 {
      FedKeeps(Started(0), r.keys);
    } else {
      var i := FirstEnd(r.n, r.keys, 0);
      if i < |r.keys| {
        ReadReturns(r.n, r.keys, i);
      } else {
        ReadGoesOn(r.n, r.keys);
      }
    }
  }

  lemma {:induction false} FedKeeps(s: Session, keys: seq<nat>)
    ensures Fed(s, keys).n == s.n && (s.done ==> Fed(s, keys) == s)
  {
    if keys == [] {
    } else {
      FedKeeps(s, keys[..|keys| - 1]);
    }
  }

  /** More keys add to the reply of a read what its session answers on them. */
  lemma ReplyGrows(r: Round, keys: seq<nat>)
    ensures var s := Fed(Started(r.n), r.keys);
            Reply(r.(keys := r.keys + keys)) == Reply(r) + Answer(s, Fed(s, keys), r.procNr)
  {
    ReplyBySession(r);
    ReplyBySession(r.(keys := r.keys + keys));
    FedJoins(Started(r.n), r.keys, keys);
    FedKeeps(Fed(Started(r.n), r.keys), keys);
  }

  /** The last read and its messages are as they should be. */
  ghost predicate Accounted(st: State) {
    && |st.queue| <= TTY_IN_BYTES
    && st.sent == Replies(st.rounds)
    && if st.rounds == [] then st.session.done
       else
         var r := st.rounds[|st.rounds| - 1];
         st.procNr == r.procNr && st.session == Fed(Started(r.n), r.keys)
  }

  lemma PollAccounted(st: State)
    requires Accounted(st)
    ensures Accounted(Next(st, Poll))
  {
    FedKeeps(st.session, st.queue);
    if st.rounds != [] {
      var m := |st.rounds| - 1;
      var r := st.rounds[m];
      var rounds := Eaten(st.rounds, st.queue);
      ReplyGrows(r, st.queue);
      FedJoins(Started(r.n), r.keys, st.queue);
      assert rounds[..m] == st.rounds[..m] && rounds[m] == r.(keys := r.keys + st.queue);
      var answer := Answer(st.session, Fed(st.session, st.queue), st.procNr);
      assert Replies(rounds) == Replies(st.rounds[..m]) + [Suspend(r.n)] + (Reply(r) + answer);
      assert Replies(rounds) == Replies(st.rounds) + answer;
    }
  }

  /**
   However polls and keys interleave, the messages to the file system are, read by read, one suspension and,
   once a key has ended the read, one resumption with the length of the line edited.
   */
  lemma {:induction false} AnsweredInOrder(events: seq<Event>)
    ensures Accounted(After(events))
  {
    if events == [] {
      assert Replies([]) == [];
    } else {
      var (st, e) := (After(events[..|events| - 1]), events[|events| - 1]);
      AnsweredInOrder(events[..|events| - 1]);
      match e
      case Press(_) =>
      case Poll => PollAccounted(st);
      case Read(procNr, n) =>
        var r := Round(procNr, n, []);
        assert (st.rounds + [r])[..|st.rounds|] == st.rounds && Reply(r) == [];
        assert Fed(Started(n), []) == Started(n);
    }
  }

  // ------------------------------------------------------------------ which key goes to which read

  /** Keys pressed since the last poll. */
  function SincePoll(events: seq<Event>): nat {
    if events == [] then 0
    else
      match events[|events| - 1]
      case Press(_) => SincePoll(events[..|events| - 1]) + 1
      case Poll => 0
      case Read(_, _) => SincePoll(events[..|events| - 1])
  }

  /** All keys pressed but those that found 256 waiting. */
  function Kept(events: seq<Event>): seq<nat> {
    if events == [] then []
    else
      var (before, e) := (events[..|events| - 1], events[|events| - 1]);
      Kept(before) + (if e.Press? && SincePoll(before) < 256 then [e.key] else [])
  }

  /** How many of them have been polled. */
  function Polled(events: seq<Event>): (r: nat)
    ensures r <= |Kept(events)|
  {
    if events == [] then 0
    else if events[|events| - 1].Poll? then |Kept(events[..|events| - 1])|
    else Polled(events[..|events| - 1])
  }

  /** The place of the last read; -1 if there has been none. */
  function LastRead(events: seq<Event>): (r: int)
    ensures -1 <= r < |events|
    ensures r >= 0 ==> events[r].Read?
    ensures forall i :: r < i < |events| ==> !events[i].Read?
  {
    if events == [] then -1
    else if events[|events| - 1].Read? then |events| - 1
    else LastRead(events[..|events| - 1])
  }

  lemma {:induction false} PolledGrows(events: seq<Event>, j: nat)
    requires j <= |events|
    ensures Polled(events[..j]) <= Polled(events)
  {
    if j == |events| {
      assert events[..j] == events;
    } else {
      PolledGrows(events[..|events| - 1], j);
      assert events[..|events| - 1][..j] == events[..j];
    }
  }

  /** The queue holds the kept keys that have not been polled, which are all there have been since, up to 256. */
  lemma {:induction false} QueueHoldsUnpolled(events: seq<Event>)
    ensures After(events).queue == Kept(events)[Polled(events)..]
    ensures |After(events).queue| == if SincePoll(events) < 256 then SincePoll(events) else 256
  {
    if events == [] {
    } else {
      QueueHoldsUnpolled(events[..|events| - 1]);
    }
  }

  /** All reads asked for, and the last of them has the kept keys polled since. */
  ghost predicate RoundsExact(events: seq<Event>) {
    var (rounds, j) := (After(events).rounds, LastRead(events));
    if j == -1 then rounds == []
    else
      && Polled(events[..j]) <= Polled(events)
      && rounds == After(events[..j]).rounds
           + [Round(events[j].procNr, events[j].n, Kept(events)[Polled(events[..j])..Polled(events)])]
  }

  /** A key pressed is at most added to the kept ones. */
  lemma PressAppends(events: seq<Event>)
    requires events != [] && events[|events| - 1].Press?
    ensures var (before, kept) := (events[..|events| - 1], Kept(events[..|events| - 1]));
            && |kept| <= |Kept(events)| && Kept(events) == kept + Kept(events)[|kept|..]
            && Polled(events) == Polled(before) && Stray(events) == Stray(before) && Reads(events) == Reads(before)
            && After(events).rounds == After(before).rounds
  {
  }

  lemma SliceOfPrefix(keys: seq<nat>, more: seq<nat>, p: nat, q: nat)
    requires p <= q <= |keys|
    ensures (keys + more)[p..q] == keys[p..q]
  {
  }

  lemma PressKeepsRounds(events: seq<Event>)
    requires events != [] && RoundsExact(events[..|events| - 1]) && events[|events| - 1].Press?
    ensures RoundsExact(events)
  {
    var before := events[..|events| - 1];
    var j := LastRead(events);
    if j >= 0 {
      assert before[..j] == events[..j];
      PressAppends(events);
      SliceOfPrefix(Kept(before), Kept(events)[|Kept(before)|..], Polled(events[..j]), Polled(before));
    }
  }

  lemma EatenLast(front: seq<Round>, r: Round, keys: seq<nat>)
    ensures Eaten(front + [r], keys) == front + [r.(keys := r.keys + keys)]
  {
    assert (front + [r])[|front| := r.(keys := r.keys + keys)] == front + [r.(keys := r.keys + keys)];
  }

  lemma SlicesJoin(keys: seq<nat>, p: nat, q: nat)
    requires p <= q <= |keys|
    ensures keys[p..q] + keys[q..] == keys[p..|keys|] && keys[..p] + keys[p..q] + keys[q..] == keys
  {
  }

  lemma PollFeedsLast(events: seq<Event>)
    requires events != [] && RoundsExact(events[..|events| - 1]) && events[|events| - 1].Poll?
    ensures RoundsExact(events)
  {
    var before := events[..|events| - 1];
    var (j, kept, st) := (LastRead(before), Kept(before), After(before));
    QueueHoldsUnpolled(before);
    if j >= 0 {
      assert before[..j] == events[..j] && Kept(events) == kept && Polled(events) == |kept|;
      var p := Polled(events[..j]);
      SlicesJoin(kept, p, Polled(before));
      EatenLast(After(events[..j]).rounds, Round(events[j].procNr, events[j].n, kept[p..Polled(before)]), st.queue);
    }
  }

  lemma ReadStarts(events: seq<Event>)
    requires events != [] && events[|events| - 1].Read?
    ensures RoundsExact(events)
  {
    var j := |events| - 1;
    assert LastRead(events) == j && Polled(events) == Polled(events[..j]);
    assert Kept(events)[Polled(events)..Polled(events)] == [];
  }

  /** Over every run each read is given just the kept keys that are polled while it is the last one asked for. */
  lemma {:induction false} KeysReachReads(events: seq<Event>)
    ensures RoundsExact(events)
  {
    if events == [] {
    } else {
      KeysReachReads(events[..|events| - 1]);
      match events[|events| - 1]
      case Press(_) => PressKeepsRounds(events);
      case Poll => PollFeedsLast(events);
      case Read(_, _) => ReadStarts(events);
    }
  }

  function AllKeys(rounds: seq<Round>): seq<nat> {
    if rounds == [] then [] else AllKeys(rounds[..|rounds| - 1]) + rounds[|rounds| - 1].keys
  }

  /** The reads asked for, in order. */
  function Reads(events: seq<Event>): seq<(int, nat)> {
    if events == [] then []
    else
      var e := events[|events| - 1];
      Reads(events[..|events| - 1]) + (if e.Read? then [(e.procNr, e.n)] else [])
  }

  function Askers(rounds: seq<Round>): seq<(int, nat)> {
    seq(|rounds|, i requires 0 <= i < |rounds| => (rounds[i].procNr, rounds[i].n))
  }

  /** How many keys were polled before the first read. */
  function Stray(events: seq<Event>): nat {
    if events == [] then 0
    else if Reads(events) == [] then Polled(events)
    else Stray(events[..|events| - 1])
  }

  lemma AllKeysEaten(rounds: seq<Round>, keys: seq<nat>)
    requires rounds != []
    ensures AllKeys(Eaten(rounds, keys)) == AllKeys(rounds) + keys && Askers(Eaten(rounds, keys)) == Askers(rounds)
  {
    var m := |rounds| - 1;
    var eaten := Eaten(rounds, keys);
    assert eaten[..m] == rounds[..m];
    assert AllKeys(rounds[..m]) + (rounds[m].keys + keys) == AllKeys(rounds) + keys;
  }

  lemma AllKeysMore(rounds: seq<Round>, r: Round)
    ensures AllKeys(rounds + [r]) == AllKeys(rounds) + r.keys
    ensures Askers(rounds + [r]) == Askers(rounds) + [(r.procNr, r.n)]
  {
    assert (rounds + [r])[..|rounds|] == rounds;
  }

  ghost predicate KeysAllThere(events: seq<Event>) {
    var st := After(events);
    && Askers(st.rounds) == Reads(events) && Stray(events) <= Polled(events)
    && AllKeys(st.rounds) == Kept(events)[Stray(events)..Polled(events)]
    && st.queue == Kept(events)[Polled(events)..]
  }

  lemma PressConserves(events: seq<Event>)
    requires events != [] && KeysAllThere(events[..|events| - 1]) && events[|events| - 1].Press?
    ensures KeysAllThere(events)
  {
    var before := events[..|events| - 1];
    QueueHoldsUnpolled(events);
    PressAppends(events);
    SliceOfPrefix(Kept(before), Kept(events)[|Kept(before)|..], Stray(before), Polled(before));
  }

  lemma ReadConserves(events: seq<Event>)
    requires events != [] && KeysAllThere(events[..|events| - 1]) && events[|events| - 1].Read?
    ensures KeysAllThere(events)
  {
    var (before, e) := (events[..|events| - 1], events[|events| - 1]);
    QueueHoldsUnpolled(events);
    AllKeysMore(After(before).rounds, Round(e.procNr, e.n, []));
    assert Polled(events) == Polled(before) && Stray(events) == Stray(before) && Kept(events) == Kept(before);
  }

  lemma {:induction false} RunsKeepKeys(events: seq<Event>)
    ensures KeysAllThere(events)
  {
    if events == [] {
    } else {
      RunsKeepKeys(events[..|events| - 1]);
      match events[|events| - 1]
      case Press(_) => PressConserves(events);
      case Poll => PollConserves(events);
      case Read(_, _) => ReadConserves(events);
    }
  }

  /**
   No key is lost or given twice: the keys polled before the first read, then those of the reads in the order in which
   these were asked for, then the queue, are the kept keys in order.
   */
  lemma KeysConserved(events: seq<Event>)
    ensures var st := After(events);
            && Stray(events) <= |Kept(events)| && Askers(st.rounds) == Reads(events)
            && Kept(events) == Kept(events)[..Stray(events)] + AllKeys(st.rounds) + st.queue
  {
    RunsKeepKeys(events);
    SlicesJoin(Kept(events), Stray(events), Polled(events));
  }

  /** A poll takes the whole queue. */
  lemma PollIs(events: seq<Event>)
    requires events != [] && events[|events| - 1].Poll?
    ensures var (before, st) := (events[..|events| - 1], After(events[..|events| - 1]));
            && Kept(events) == Kept(before) && Polled(events) == |Kept(events)| && Reads(events) == Reads(before)
            && Stray(events) == (if Reads(before) == [] then |Kept(events)| else Stray(before))
            && After(events).rounds == Eaten(st.rounds, st.queue) && After(events).queue == []
  {
  }

  lemma PollConserves(events: seq<Event>)
    requires events != [] && KeysAllThere(events[..|events| - 1]) && events[|events| - 1].Poll?
    ensures KeysAllThere(events)
  {
    var (before, st) := (events[..|events| - 1], After(events[..|events| - 1]));
    PollIs(events);
    if st.rounds == [] {
      assert Reads(before) == [];
    } else {
      assert |Askers(st.rounds)| > 0;
      AllKeysEaten(st.rounds, st.queue);
      SlicesJoin(Kept(events), Stray(before), Polled(before));
    }
  }

  // ------------------------------------------------------------------ what the line editor makes of keys

  /** A text of codes 32 to 126 is what it says. */
  lemma {:induction false} PlainTextIsItself(text: seq<nat>)
    requires Plain(text)
    ensures Edited(text) == text
  {
    if text == [] {
    } else {
      var (front, ch) := (text[..|text| - 1], text[|text| - 1]);
      PlainTextIsItself(front);
      EditedSnoc(front, ch);
      assert text == front + [ch];
    }
  }

  lemma LastKey(before: seq<nat>, rest: seq<nat>)
    requires rest != []
    ensures before + rest == before + rest[..|rest| - 1] + [rest[|rest| - 1]]
  {
  }

  lemma EditedFollowsOne(a: seq<nat>, b: seq<nat>, key: nat)
    requires Edited(a) == Edited(b)
    ensures Edited(a + [key]) == Edited(b + [key])
  {
    EditedSnoc(a, key);
    EditedSnoc(b, key);
  }

  lemma {:induction false} EditedFollows(a: seq<nat>, b: seq<nat>, rest: seq<nat>)
    requires Edited(a) == Edited(b)
    ensures Edited(a + rest) == Edited(b + rest)
    decreases |rest|
  {
    if rest == [] {
      assert a + rest == a && b + rest == b;
    } else {
      EditedFollows(a, b, rest[..|rest| - 1]);
      EditedFollowsOne(a + rest[..|rest| - 1], b + rest[..|rest| - 1], rest[|rest| - 1]);
      LastKey(a, rest);
      LastKey(b, rest);
    }
  }

  /** Any other code but a backspace is ignored, wherever it stands. */
  lemma OtherKeysIgnored(before: seq<nat>, key: nat, after: seq<nat>)
    requires var ch := key % 256; (ch < 32 || ch > 126) && ch != 8
    ensures Edited(before + [key] + after) == Edited(before + after)
  {
    EditedSnoc(before, key);
    EditedFollows(before + [key], before, after);
  }

  /** So is a backspace on an empty line. */
  lemma BackspaceOnEmpty(before: seq<nat>, key: nat, after: seq<nat>)
    requires key % 256 == 8 && Edited(before) == []
    ensures Edited(before + [key] + after) == Edited(before + after)
  {
    EditedSnoc(before, key);
    EditedFollows(before + [key], before, after);
  }

  lemma FedSnoc(s: Session, keys: seq<nat>, key: nat)
    ensures Fed(s, keys + [key]) == Took(Fed(s, keys), Char(key))
    ensures Echoes(s, keys + [key]) == Echoes(s, keys) + Echo(Fed(s, keys), Char(key))
  {
    assert (keys + [key])[..|keys|] == keys;
  }

  ghost predicate Plain(text: seq<nat>) { forall i :: 0 <= i < |text| ==> 32 <= text[i] <= 126 }

  lemma PlainChar(n: nat, text: seq<nat>, ch: nat)
    requires |text| < n && 32 <= ch <= 126
    ensures Took(Session(n, text, false), ch) == Session(n, text + [ch], |text| + 1 == n)
    ensures Echo(Session(n, text, false), ch) == [ch] + if |text| + 1 == n then [10] else []
    ensures Char(ch) == ch
  {
  }

  lemma PlainKey(n: nat, front: seq<nat>, ch: nat)
    requires |front| < n && 32 <= ch <= 126
    requires Fed(Started(n), front) == Session(n, front, false) && Echoes(Started(n), front) == front
    ensures Fed(Started(n), front + [ch]) == Session(n, front + [ch], |front| + 1 == n)
    ensures Echoes(Started(n), front + [ch]) == front + ([ch] + if |front| + 1 == n then [10] else [])
  {
    PlainChar(n, front, ch);
    FedSnoc(Started(n), front, ch);
  }

  lemma {:induction false} PlainTextGoesOn(n: nat, text: seq<nat>)
    requires |text| < n && Plain(text)
    ensures Fed(Started(n), text) == Session(n, text, false) && Echoes(Started(n), text) == text
  {
    if text == [] {
    } else {
      PlainTextGoesOn(n, text[..|text| - 1]);
      PlainKey(n, text[..|text| - 1], text[|text| - 1]);
      LastApart(text);
    }
  }

  lemma LastApart(text: seq<nat>)
    requires text != []
    ensures text[..|text| - 1] + [text[|text| - 1]] == text
    ensures forall end: seq<nat> :: text[..|text| - 1] + ([text[|text| - 1]] + end) == text + end
  {
  }

  /** A text shorter than what is asked for, and a newline, is returned as it is, and shown on a line of its own. */
  lemma PlainTextReturned(n: nat, text: seq<nat>, newline: nat)
    requires |text| < n && Plain(text) && newline % 256 == 10
    ensures Fed(Started(n), text + [newline]) == Session(n, text, true)
    ensures Echoes(Started(n), text + [newline]) == text + [10]
  {
    PlainTextGoesOn(n, text);
    FedSnoc(Started(n), text, newline);
  }

  /** A text as long as what is asked for is returned without a newline. */
  lemma FullTextReturned(text: seq<nat>)
    requires text != [] && Plain(text)
    ensures Fed(Started(|text|), text) == Session(|text|, text, true)
    ensures Echoes(Started(|text|), text) == text + [10]
  {
    PlainTextGoesOn(|text|, text[..|text| - 1]);
    PlainKey(|text|, text[..|text| - 1], text[|text| - 1]);
    LastApart(text);
  }

  function Presses(keys: seq<nat>): seq<Event> {
    seq(|keys|, i requires 0 <= i < |keys| => Press(keys[i]))
  }

  lemma AfterSnoc(events: seq<Event>, e: Event)
    ensures After(events + [e]) == Next(After(events), e)
  {
    assert (events + [e])[..|events|] == events;
  }

  lemma {:induction false} PressedWait(events: seq<Event>, keys: seq<nat>)
    requires |After(events).queue| + |keys| <= TTY_IN_BYTES
    ensures var st := After(events);
            After(events + Presses(keys)) == st.(queue := st.queue + keys)
  {
    if keys == [] {
      assert events + Presses(keys) == events;
    } else {
      var k := |keys| - 1;
      PressedWait(events, keys[..k]);
      AfterSnoc(events + Presses(keys[..k]), Press(keys[k]));
      assert events + Presses(keys) == events + Presses(keys[..k]) + [Press(keys[k])];
    }
  }

  /** A read, a line typed and a poll: the reader gets the line, once. */
  lemma LineIsRead(procNr: int, n: nat, text: seq<nat>, newline: nat)
    requires |text| < n && |text| < 256 && Plain(text) && newline % 256 == 10
    ensures var st := After([Read(procNr, n)] + Presses(text + [newline]) + [Poll]);
            st.sent == [Suspend(n), Resume(procNr, |text|)] && st.session == Session(n, text, true) && st.queue == []
  {
    var (r, keys) := (Read(procNr, n), text + [newline]);
    AfterSnoc([], r);
    assert [] + [r] == [r];
    PressedWait([r], keys);
    AfterSnoc([r] + Presses(keys), Poll);
    PlainTextReturned(n, text, newline);
    assert [] + keys == keys;
  }

  // ------------------------------------------------------------------ the terminal itself

  lemma SeqJoins(a: seq<nat>, b: seq<nat>, c: seq<nat>)
    ensures a + b + c == a + (b + c)
  {
  }

  lemma AnswersJoin(s: Session, s': Session, s'': Session, procNr: int, sent: seq<Message>)
    requires s.done ==> s' == s
    requires s'.done ==> s'' == s'
    ensures sent + Answer(s, s', procNr) + Answer(s', s'', procNr) == sent + Answer(s, s'', procNr)
  {
  }

  /** Memory is the same outside the n bytes of a read's buffer. */
  ghost predicate Elsewhere(mem: seq<nat>, mem': seq<nat>, buf: nat, n: int) {
    |mem'| == |mem| && forall i :: 0 <= i < |mem| && !(buf <= i < buf + n) ==> mem'[i] == mem[i]
  }

  /** The ring's i-th slot from tail on. */
  function Slot(tail: nat, i: nat): (k: nat)
    requires tail < TTY_IN_BYTES && i <= TTY_IN_BYTES
    ensures k < TTY_IN_BYTES
  {
    if tail + i < TTY_IN_BYTES then tail + i else tail + i - TTY_IN_BYTES
  }

  function Ring(buf: seq<nat>, tail: nat, cnt: nat): (q: seq<nat>)
    requires |buf| == TTY_IN_BYTES && tail < TTY_IN_BYTES && cnt <= TTY_IN_BYTES
    ensures |q| == cnt
  {
    seq(cnt, i requires 0 <= i < cnt => buf[Slot(tail, i)])
  }

  lemma RingGains(buf: seq<nat>, tail: nat, cnt: nat, key: nat)
    requires |buf| == TTY_IN_BYTES && tail < TTY_IN_BYTES && cnt < TTY_IN_BYTES
    ensures Ring(buf[Slot(tail, cnt) := key], tail, cnt + 1) == Ring(buf, tail, cnt) + [key]
  {
  }

  lemma RingLoses(buf: seq<nat>, tail: nat, cnt: nat)
    requires |buf| == TTY_IN_BYTES && tail < TTY_IN_BYTES && 0 < cnt <= TTY_IN_BYTES
    ensures Ring(buf, tail, cnt)[0] == buf[tail]
    ensures Ring(buf, tail, cnt)[1..] == Ring(buf, Slot(tail, 1), cnt - 1)
  {
  }

  lemma FedNext(s: Session, keys: seq<nat>, n: nat)
    requires n < |keys|
    ensures Fed(s, keys[..n + 1]) == Took(Fed(s, keys[..n]), Char(keys[n]))
    ensures Echoes(s, keys[..n + 1]) == Echoes(s, keys[..n]) + Echo(Fed(s, keys[..n]), Char(keys[n]))
  {
    assert keys[..n + 1][..n] == keys[..n];
  }

  class Device {
    const ibuf: array<nat>
    var ibufHead: nat
    var ibufTail: nat
    var ibufCnt: nat
    var procNr: int
    var reqBuf: nat
    var leftCnt: int
    var transCnt: int
    const memory: array<nat>       // what the reading processes' buffers are in
    var screen: seq<nat>           // the chars given to out_char
    var sent: seq<Message>         // to the file system
    ghost var session: Session
    ghost var rounds: seq<Round>

    ghost predicate RingOk()
      reads this
    {
      && ibuf.Length == TTY_IN_BYTES && ibuf != memory
      && ibufTail < TTY_IN_BYTES && ibufCnt <= TTY_IN_BYTES && ibufHead == Slot(ibufTail, ibufCnt)
    }

    ghost function Keys(): seq<nat>
      reads this, ibuf
      requires RingOk()
    {
      Ring(ibuf[..], ibufTail, ibufCnt)
    }

    /** The bytes transferred are the text of the read, and the counts add up to what it asked for. */
    ghost predicate ReadOk()
      reads this, memory
    {
      && leftCnt >= 0 && transCnt == |session.text| && reqBuf + transCnt + leftCnt <= memory.Length
      && memory[reqBuf..reqBuf + transCnt] == session.text
      && (session.done <==> leftCnt == 0)
      && (!session.done ==> transCnt + leftCnt == session.n)
    }

    ghost function Abs(): State
      reads this, ibuf
      requires RingOk()
    {
      State(Keys(), session, procNr, sent, rounds)
    }

    constructor (memory: array<nat>)
      ensures RingOk() && ReadOk() && Abs() == Fresh()
    {
      this.memory := memory;
      ibuf := new nat[TTY_IN_BYTES];
      ibufHead, ibufTail, ibufCnt := 0, 0, 0;
      procNr, reqBuf, leftCnt, transCnt := 0, 0, 0, 0;
      screen, sent := [], [];
      session := Session(0, [], true);
      rounds := [];
    }

    method PutKey(key: nat)
      requires RingOk()
      modifies this`ibufHead, this`ibufCnt, ibuf
      ensures RingOk() && Abs() == Next(old(Abs()), Press(key))
    {
      if ibufCnt < TTY_IN_BYTES {
        RingGains(ibuf[..], ibufTail, ibufCnt, key);
        ghost var was := ibuf[..];
        ibuf[ibufHead] := key;
        assert ibuf[..] == was[ibufHead := key];
        ibufHead := ibufHead + 1;
        if ibufHead == TTY_IN_BYTES {
          ibufHead := 0;
        }
        ibufCnt := ibufCnt + 1;
      }
    }

    /** Takes the oldest key out of the ring. */
    method TakeKey() returns (ch: nat)
      requires RingOk() && ibufCnt > 0
      modifies this`ibufTail, this`ibufCnt
      ensures RingOk() && ibufCnt == old(ibufCnt) - 1
      ensures ch == Char(old(Keys())[0]) && Keys() == old(Keys())[1..]
    {
      RingLoses(ibuf[..], ibufTail, ibufCnt);
      ch := Char(ibuf[ibufTail]);
      ibufTail := ibufTail + 1;
      if ibufTail == TTY_IN_BYTES {
        ibufTail := 0;
      }
      ibufCnt := ibufCnt - 1;
    }

    /** tty_dev_write */
    method DevWrite()
      requires RingOk() && ReadOk()
      modifies this`ibufTail, this`ibufCnt, this`leftCnt, this`transCnt, this`screen, this`sent, this`session,
               this`rounds, memory
      ensures RingOk() && ReadOk() && Abs() == Next(old(Abs()), Poll)
      ensures screen == old(screen) + Echoes(old(session), old(Keys()))
      ensures Elsewhere(old(memory[..]), memory[..], reqBuf, old(transCnt + leftCnt))
    {
      rounds := Eaten(rounds, Keys());
      Drain();
    }

    /** The loop of tty_dev_write. */
    method Drain()
      requires RingOk() && ReadOk()
      modifies this`ibufTail, this`ibufCnt, this`leftCnt, this`transCnt, this`screen, this`sent, this`session, memory
      ensures RingOk() && ReadOk() && Keys() == [] && session == Fed(old(session), old(Keys()))
      ensures screen == old(screen) + Echoes(old(session), old(Keys()))
      ensures sent == old(sent) + Answer(old(session), session, procNr)
      ensures Elsewhere(old(memory[..]), memory[..], reqBuf, old(transCnt + leftCnt))
    {
      ghost var keys, n := Keys(), 0;
      ghost var s := session;
      assert keys[0..] == keys;
      while ibufCnt != 0
        invariant RingOk() && ReadOk() && n <= |keys| && Keys() == keys[n..]
        invariant session == Fed(s, keys[..n])
        invariant screen == old(screen) + Echoes(s, keys[..n])
        invariant Elsewhere(old(memory[..]), memory[..], reqBuf, old(transCnt + leftCnt))
        invariant transCnt + leftCnt <= old(transCnt + leftCnt)
        invariant sent == old(sent) + Answer(s, session, procNr)
        decreases ibufCnt
      {
        FedNext(s, keys, n);
        FedKeeps(s, keys[..n]);
        assert keys[n..][1..] == keys[n + 1..] && keys[n..][0] == keys[n];
        ghost var now := session;
        HandleKey();
        AnswersJoin(s, now, session, procNr, old(sent));
        SeqJoins(old(screen), Echoes(s, keys[..n]), Echo(now, Char(keys[n])));
        n := n + 1;
      }
      assert keys[..n] == keys;
    }

    /** A round of tty_dev_write. */
    method HandleKey()
      requires RingOk() && ReadOk() && ibufCnt > 0
      modifies this`ibufTail, this`ibufCnt, this`leftCnt, this`transCnt, this`screen, this`sent, this`session, memory
      ensures RingOk() && ReadOk() && ibufCnt == old(ibufCnt) - 1 && Keys() == old(Keys())[1..]
      ensures session == Took(old(session), Char(old(Keys())[0]))
      ensures screen == old(screen) + Echo(old(session), Char(old(Keys())[0]))
      ensures Elsewhere(old(memory[..]), memory[..], reqBuf, old(transCnt + leftCnt))
      ensures transCnt + leftCnt <= old(transCnt + leftCnt)
      ensures sent == old(sent) + Answer(old(session), session, procNr)
    {
      var ch := TakeKey();
      TakeChar(ch);
    }

    /** What the line editor does with a char. */
    method TakeChar(ch: nat)
      requires ReadOk() && ibuf != memory
      modifies this`leftCnt, this`transCnt, this`screen, this`sent, this`session, memory
      ensures ReadOk() && session == Took(old(session), ch)
      ensures screen == old(screen) + Echo(old(session), ch)
      ensures Elsewhere(old(memory[..]), memory[..], reqBuf, old(transCnt + leftCnt))
      ensures transCnt + leftCnt <= old(transCnt + leftCnt)
      ensures sent == old(sent) + Answer(old(session), session, procNr)
    {
      if leftCnt != 0 {
        session := Took(session, ch);
        if Printable(ch) {
          screen := screen + [ch];
          memory[reqBuf + transCnt] := ch;
          transCnt := transCnt + 1;
          leftCnt := leftCnt - 1;
        } else if ch == BACKSPACE && transCnt != 0 {
          screen := screen + [ch];
          transCnt := transCnt - 1;
          leftCnt := leftCnt + 1;
        }
        if ch == NEWLINE || leftCnt == 0 {
          screen := screen + [NEWLINE];
          sent := sent + [Resume(procNr, transCnt)];
          leftCnt := 0;
        }
      }
    }

    method DoRead(procNr: int, buf: nat, cnt: nat)
      requires RingOk() && buf + cnt <= memory.Length
      modifies this`procNr, this`reqBuf, this`leftCnt, this`transCnt, this`sent, this`session, this`rounds
      ensures RingOk() && ReadOk() && Abs() == Next(old(Abs()), Read(procNr, cnt)) && reqBuf == buf
    {
      this.procNr := procNr;
      reqBuf := buf;
      leftCnt := cnt;
      transCnt := 0;
      sent := sent + [Suspend(leftCnt)];
      session := Started(cnt);
      rounds := rounds + [Round(procNr, cnt, [])];
    }
  }
}
