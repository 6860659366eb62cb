/** Taking serialized samples from a reader: one at a time, or a batch compacted into the caller's sequences. */
module Samples {
  import opened Wrappers

  const INT32_MAX: nat := 0x7FFF_FFFF
  const PREFIX_LENGTH := 12

  /** A GUID or an instance handle: sixteen octets. */
  type Octets = s: seq<int> | |s| == 16 witness seq(16, _ => 0)

  datatype Sample = Sample(validData: bool, sender: Octets, publication: int, stream: seq<int>)

  /** What the type support makes of a stream; the message slot is written even when decoding fails. */
  datatype Decoded = Decoded(ok: bool, message: int)

  datatype RetCode = OK | ERROR | INVALID_ARGUMENT

  predicate IsLocal(sample: Sample, receiver: Octets) {
    sample.sender[..PREFIX_LENGTH] == receiver[..PREFIX_LENGTH]
  }

  /** The first twelve octets of a GUID are its prefix (DDSI-RTPS 2.2, section 9.3.1). */
  lemma LocalMeans(sample: Sample, receiver: Octets)
    ensures IsLocal(sample, receiver) <==> forall k | 0 <= k < 12 :: sample.sender[k] == receiver[k]
  {
    var a, b := sample.sender[..PREFIX_LENGTH], receiver[..PREFIX_LENGTH];
    assert forall k | 0 <= k < 12 :: a[k] == sample.sender[k] && b[k] == receiver[k];
  }

  method IsLocalPublication(sample: Sample, receiver: Octets) returns (isLocal: bool)
    ensures isLocal <==> IsLocal(sample, receiver)
    ensures isLocal <==> forall k | 0 <= k < 12 :: sample.sender[k] == receiver[k]
  {
    LocalMeans(sample, receiver);
    isLocal := true;
    for i := 0 to PREFIX_LENGTH
      invariant isLocal && sample.sender[..i] == receiver[..i]
    {
      if sample.sender[i] != receiver[i] {
        assert sample.sender[..PREFIX_LENGTH][i] != receiver[..PREFIX_LENGTH][i];
        isLocal := false;
        break;
      }
    }
  }

  /** The subscription's side of the transport: its queue, its own handle and whether it ignores local samples. */
  class Reader {
    var queue: seq<Sample>
    const handle: Octets
    const ignoreLocal: bool
    const decode: seq<int> -> Decoded

    constructor (queue: seq<Sample>, handle: Octets, ignoreLocal: bool, decode: seq<int> -> Decoded)
      ensures this.queue == queue && this.handle == handle && this.ignoreLocal == ignoreLocal && this.decode == decode
    {
      this.queue, this.handle, this.ignoreLocal, this.decode := queue, handle, ignoreLocal, decode;
    }

    /** DDS take: at most max samples, in order; none is the no-data answer. */
    method TakeLoan(max: nat) returns (loan: seq<Sample>)
      modifies this
      ensures loan == old(queue)[..Least(max, |old(queue)|)]
      ensures queue == old(queue)[Least(max, |old(queue)|)..]
    {
      var n := if max < |queue| then max else |queue|;
      loan := queue[..n];
      queue := queue[n..];
    }
  }

  function Least(a: nat, b: nat): nat {
    if a < b then a else b
  }

  /** The samples that are looked at further: with data, and not from this process when local ones are ignored. */
  predicate Considered(s: Sample, receiver: Octets, ignoreLocal: bool) {
    s.validData && !(ignoreLocal && IsLocal(s, receiver))
  }

  // ---------- one at a time ----------

  /** The answer of a single take: nothing to deliver, a message with its publication handle, or a decoding error. */
  datatype Answer = Nothing | Got(message: int, publication: int) | Failed

  function AnswerFor(s: Sample, receiver: Octets, ignoreLocal: bool, decode: seq<int> -> Decoded): Answer {
    if !Considered(s, receiver, ignoreLocal) then Nothing
    else if decode(s.stream).ok then Got(decode(s.stream).message, s.publication)
    else Failed
  }

  /** rmw_take; the publication handle is reported for every sample with data, delivered or not. */
  method TakeOne(reader: Reader) returns (code: RetCode, taken: bool, message: int, publication: Option<int>)
    modifies reader
    ensures old(reader.queue) == [] ==> code == OK && !taken && publication == None && reader.queue == []
    ensures old(reader.queue) != [] ==>
              var s := old(reader.queue)[0];
              var answer := AnswerFor(s, reader.handle, reader.ignoreLocal, reader.decode);
              && reader.queue == old(reader.queue)[1..]
              && (code == ERROR <==> answer == Failed) && (code == ERROR ==> taken)
              && (code == OK ==> (taken <==> answer.Got?))
              && (code == OK && taken ==> answer == Got(message, s.publication) && publication == Some(answer.publication))
              && (publication == if s.validData then Some(s.publication) else None)
    ensures old(reader.queue) != [] ==>
              var s := old(reader.queue)[0];
              var ignored := !s.validData || (reader.ignoreLocal && forall k | 0 <= k < 12 :: s.sender[k] == reader.handle[k]);
              && (taken <==> !ignored) && (code == ERROR <==> taken && !reader.decode(s.stream).ok)
              && (code == OK && taken ==> message == reader.decode(s.stream).message && publication == Some(s.publication))
    ensures code != INVALID_ARGUMENT
  {
    if reader.queue != [] {
      LocalMeans(reader.queue[0], reader.handle);
    }
    message, publication := 0, None;
    var loan := reader.TakeLoan(1);
    if |loan| == 0 {
      return OK, false, message, publication;
    }
    var ignoreSample := false;
    if !loan[0].validData {
      ignoreSample := true;
    } else if reader.ignoreLocal {
      ignoreSample := IsLocalPublication(loan[0], reader.handle);
    }
    if loan[0].validData {
      publication := Some(loan[0].publication);
    }
    taken := !ignoreSample;
    code := OK;
    if taken {
      var decoded := reader.decode(loan[0].stream);
      message := decoded.message;
      if !decoded.ok {
        code := ERROR;
      }
    }
  }

  /** The answers of repeated single takes. */
  function Answers(queue: seq<Sample>, calls: nat, receiver: Octets, ignoreLocal: bool, decode: seq<int> -> Decoded): seq<Answer> {
    if calls == 0 || queue == [] then []
    else [AnswerFor(queue[0], receiver, ignoreLocal, decode)] + Answers(queue[1..], calls - 1, receiver, ignoreLocal, decode)
  }

  function Deliveries(answers: seq<Answer>): seq<Answer> {
    if answers == [] then [] else (if answers[0].Got? then [answers[0]] else []) + Deliveries(answers[1..])
  }

  // ---------- a batch ----------

  class Sequence {
    const data: array<int>
    var size: nat

    constructor (capacity: nat)
      ensures fresh(data) && data.Length == capacity && size == 0
    {
      data := new int[capacity];
      size := 0;
    }
  }

  /** What a batch delivers, in queue order. */
  function Batch(loan: seq<Sample>, receiver: Octets, ignoreLocal: bool, decode: seq<int> -> Decoded): seq<Answer> {
    if loan == [] then []
    else
      var answer := AnswerFor(loan[|loan| - 1], receiver, ignoreLocal, decode);
      Batch(loan[..|loan| - 1], receiver, ignoreLocal, decode) + if answer.Got? then [answer] else []
  }

  /** How many samples of a loan fail to decode; a batch hides them. */
  function Failures(loan: seq<Sample>, receiver: Octets, ignoreLocal: bool, decode: seq<int> -> Decoded): nat {
    if loan == [] then 0
    else
      Failures(loan[..|loan| - 1], receiver, ignoreLocal, decode) +
      if AnswerFor(loan[|loan| - 1], receiver, ignoreLocal, decode).Failed? then 1 else 0
  }

  lemma LoanStep(queue: seq<Sample>, n: nat, receiver: Octets, ignoreLocal: bool, decode: seq<int> -> Decoded)
    requires n < |queue|
    ensures var answer := AnswerFor(queue[n], receiver, ignoreLocal, decode);
            && Batch(queue[..n + 1], receiver, ignoreLocal, decode) ==
               Batch(queue[..n], receiver, ignoreLocal, decode) + (if answer.Got? then [answer] else [])
            && Failures(queue[..n + 1], receiver, ignoreLocal, decode) ==
               Failures(queue[..n], receiver, ignoreLocal, decode) + (if answer.Failed? then 1 else 0)
  {
    hide AnswerFor;
    assert queue[..n + 1][..n] == queue[..n];
  }

  lemma EmptyLoan(reader: Reader)
    ensures Batch([], reader.handle, reader.ignoreLocal, reader.decode) == []
    ensures Failures([], reader.handle, reader.ignoreLocal, reader.decode) == 0
  {
  }

  /** The first slots of both sequences hold the deliveries, message and publication side by side. */
  ghost predicate Holds(messages: Sequence, publications: Sequence, deliveries: seq<Answer>)
    reads messages, messages.data, publications, publications.data
  {
    && |deliveries| <= messages.data.Length && |deliveries| <= publications.data.Length
    && forall k | 0 <= k < |deliveries| :: deliveries[k] == Got(messages.data[k], publications.data[k])
  }

  /**
   * rmw_take_sequence. Invalid arguments change nothing. The sizes are set when at least one sample was there; when
   * there was none they keep the values the caller passed in, although nothing was taken.
   */
  method TakeSequence(reader: Reader, count: nat, messages: Sequence, publications: Sequence)
    returns (code: RetCode, taken: nat)
    requires messages != publications && messages.data != publications.data
    modifies reader, messages, messages.data, publications, publications.data
    ensures code == if count == 0 || count > messages.data.Length || count > publications.data.Length then INVALID_ARGUMENT
                    else if count > 0x7FFF_FFFF then ERROR else OK
    ensures code != OK ==> reader.queue == old(reader.queue) && messages.size == old(messages.size)
    ensures code == OK ==>
              var n := Least(count, |old(reader.queue)|);
              var batch := Batch(old(reader.queue)[..n], reader.handle, reader.ignoreLocal, reader.decode);
              && reader.queue == old(reader.queue)[n..]
              && taken == |batch| && Holds(messages, publications, batch)
              && taken <= messages.data.Length && taken <= publications.data.Length
              && forall k | 0 <= k < taken :: batch[k] == Got(messages.data[k], publications.data[k])
    ensures code == OK && old(reader.queue) != [] ==> messages.size == taken && publications.size == taken
    ensures code == OK && old(reader.queue) == [] ==>
              taken == 0 && messages.size == old(messages.size) && publications.size == old(publications.size)
  {
    taken := 0;
    if count == 0 {
      return INVALID_ARGUMENT, taken;
    }
    if count > messages.data.Length {
      return INVALID_ARGUMENT, taken;
    }
    if count > publications.data.Length {
      return INVALID_ARGUMENT, taken;
    }
    if count > INT32_MAX {
      return ERROR, taken;
    }
    var loan := reader.TakeLoan(count);
    if |loan| == 0 {
      return OK, taken;
    }
    taken := Compact(reader, loan, messages, publications);
    messages.size := taken;
    publications.size := taken;
    code := OK;
  }

  /** The loop over the loan: deliverable samples move down to the first free slot. */
  method Compact(reader: Reader, loan: seq<Sample>, messages: Sequence, publications: Sequence) returns (taken: nat)
    requires messages.data != publications.data
    requires |loan| <= messages.data.Length && |loan| <= publications.data.Length
    modifies messages.data, publications.data
    ensures taken == |Batch(loan, reader.handle, reader.ignoreLocal, reader.decode)|
    ensures Holds(messages, publications, Batch(loan, reader.handle, reader.ignoreLocal, reader.decode))
    ensures taken <= messages.data.Length && taken <= publications.data.Length
    ensures forall k | 0 <= k < taken ::
              Batch(loan, reader.handle, reader.ignoreLocal, reader.decode)[k] ==
              Got(messages.data[k], publications.data[k])
  {
    hide IsLocal;
    hide Batch;
    hide Failures;
    EmptyLoan(reader);
    taken := 0;
    for i := 0 to |loan|
      invariant taken <= i
      invariant taken == |Batch(loan[..i], reader.handle, reader.ignoreLocal, reader.decode)|
      invariant Holds(messages, publications, Batch(loan[..i], reader.handle, reader.ignoreLocal, reader.decode))
    {
      LoanStep(loan, i, reader.handle, reader.ignoreLocal, reader.decode);
      var ignoreSample := false;
      if !loan[i].validData {
        ignoreSample := true;
      } else if reader.ignoreLocal {
        ignoreSample := IsLocalPublication(loan[i], reader.handle);
      }
      if !ignoreSample {
        var decoded := reader.decode(loan[i].stream);
        messages.data[taken] := decoded.message;
        if decoded.ok {
          publications.data[taken] := loan[i].publication;
          taken := taken + 1;
        }
      }
    }
    assert loan[..|loan|] == loan;
  }

  // ---------- the two agree ----------

  lemma DeliveriesStep(answers: seq<Answer>)
    requires answers != []
    ensures Deliveries(answers) == (if answers[0].Got? then [answers[0]] else []) + Deliveries(answers[1..])
  {
  }

  lemma {:induction false} DeliveriesAppend(a: seq<Answer>, b: seq<Answer>)
    ensures Deliveries(a + b) == Deliveries(a) + Deliveries(b)
  {
    if a == [] {
      assert a + b == b;
    } else {
      DeliveriesStep(a);
      DeliveriesStep(a + b);
      hide *;
      assert (a + b)[1..] == a[1..] + b && (a + b)[0] == a[0];
      DeliveriesAppend(a[1..], b);
      var first := if a[0].Got? then [a[0]] else [];
      assert first + (Deliveries(a[1..]) + Deliveries(b)) == (first + Deliveries(a[1..])) + Deliveries(b);
    }
  }

  lemma {:induction false} AnswersStep(queue: seq<Sample>, n: nat, receiver: Octets, ignoreLocal: bool, decode: seq<int> -> Decoded)
    requires n < |queue|
    ensures Answers(queue, n + 1, receiver, ignoreLocal, decode) ==
            Answers(queue, n, receiver, ignoreLocal, decode) + [AnswerFor(queue[n], receiver, ignoreLocal, decode)]
  {
    if n > 0 {
      AnswersStep(queue[1..], n - 1, receiver, ignoreLocal, decode);
    }
  }

  /**
   * A batch delivers exactly what as many single takes would, in the same order, decoding errors or not; what it
   * hides is the errors: single takes report each of them.
   */
  lemma {:induction false} BatchEqualsSingles(queue: seq<Sample>, n: nat, receiver: Octets, ignoreLocal: bool,
      decode: seq<int> -> Decoded)
    requires n <= |queue|
    ensures Batch(queue[..n], receiver, ignoreLocal, decode) ==
            Deliveries(Answers(queue, n, receiver, ignoreLocal, decode))
  {
    if n > 0 {
      BatchEqualsSingles(queue, n - 1, receiver, ignoreLocal, decode);
      AnswersStep(queue, n - 1, receiver, ignoreLocal, decode);
      var last := AnswerFor(queue[n - 1], receiver, ignoreLocal, decode);
      DeliveriesAppend(Answers(queue, n - 1, receiver, ignoreLocal, decode), [last]);
      assert Deliveries([last]) == if last.Got? then [last] else [];
      assert queue[..n][..n - 1] == queue[..n - 1];
    }
  }

  /**
   * As many single takes as a batch asks for samples: together they deliver the batch and leave the same queue behind,
   * and they report each decoding error.
   */
  method TakeRepeatedly(reader: Reader, calls: nat) returns (delivered: seq<Answer>, errors: nat)
    modifies reader
    ensures var n := Least(calls, |old(reader.queue)|);
            && reader.queue == old(reader.queue)[n..]
            && delivered == Batch(old(reader.queue)[..n], reader.handle, reader.ignoreLocal, reader.decode)
            && errors == Failures(old(reader.queue)[..n], reader.handle, reader.ignoreLocal, reader.decode)
  {
    hide AnswerFor;
    hide Batch;
    hide Failures;
    ghost var queue := reader.queue;
    EmptyLoan(reader);
    delivered, errors := [], 0;
    for i := 0 to calls
      invariant reader.queue == queue[Least(i, |queue|)..]
      invariant delivered == Batch(queue[..Least(i, |queue|)], reader.handle, reader.ignoreLocal, reader.decode)
      invariant errors == Failures(queue[..Least(i, |queue|)], reader.handle, reader.ignoreLocal, reader.decode)
    {
      if i < |queue| {
        LoanStep(queue, i, reader.handle, reader.ignoreLocal, reader.decode);
      }
      var code, taken, message, publication := TakeOne(reader);
      if code == ERROR {
        errors := errors + 1;
      } else if taken {
        delivered := delivered + [Got(message, publication.value)];
      }
    }
  }
}
