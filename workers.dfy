/**
 * WorkerService: registration (allocate an id, save, publish), look-up,
 * listing, update and deletion over the worker repository.
 */
module Workers {

  import opened Outcomes
  import opened Registration
  import JavaText
  import Sequences

  /** The counter registration draws worker ids from. */
  const WorkersSequence: string := "workers_sequence"

  /** A record handed to KafkaTemplate.send: topic, key and JSON value. */
  datatype Message = Message(topic: string, key: string, value: string)

  /**
   * The two foreign steps of publishing. `serialize` is Jackson's
   * writeValueAsString (None: it threw JsonProcessingException); `send` is
   * KafkaTemplate.send on topic, key and value (false: it threw).
   */
  datatype KafkaClient = KafkaClient(
    serialize: Worker -> Option<string>,
    send: (string, string, string) -> bool)

  /** The message key, `String.valueOf(getId())`: the decimal id, or "null" when there is none. */
  function MessageKey(w: Worker): (k: string)
    ensures w.id.Some? ==> JavaText.ParseInt(k) == Some(w.id.value)
    ensures w.id.None? ==> k == "null"
  {
    match w.id
    case Some(i) => JavaText.IntToStringRoundTrip(i); JavaText.IntToString(i)
    case None => "null"
  }

  /** Keys identify ids: two records get the same key exactly when they carry the same id. */
  lemma MessageKeyIdentifiesId(a: Worker, b: Worker)
    ensures MessageKey(a) == MessageKey(b) <==> a.id == b.id
  {
    match a.id {
      case Some(i) =>
        match b.id {
          case Some(j) => JavaText.IntToStringInjective(i, j);
          case None => assert MessageKey(a)[0] != 'n';
        }
      case None =>
        if b.id.Some? { assert MessageKey(b)[0] != 'n'; }
    }
  }

  /** What publishing a record to `topic` ends in, given how the foreign steps behave. */
  function PublishOutcome(kafka: KafkaClient, topic: string, w: Worker): (o: Outcome)
    ensures o.Fail? ==> o.error == SerializationFailed || o.error == PublishFailed
    ensures o.Fail? && o.error == SerializationFailed <==> kafka.serialize(w).None?
  {
    match kafka.serialize(w)
    case None => Fail(SerializationFailed)
    case Some(json) => if kafka.send(topic, MessageKey(w), json) then Pass else Fail(PublishFailed)
  }

  /** Publishing either hands over the message for the record or reports one of the two publish errors. */
  lemma PublishOutcomeCases(kafka: KafkaClient, topic: string, w: Worker)
    ensures PublishOutcome(kafka, topic, w).Fail? ==>
      PublishOutcome(kafka, topic, w).error in {SerializationFailed, PublishFailed}
    ensures PublishOutcome(kafka, topic, w).Pass? <==>
      kafka.serialize(w).Some? && kafka.send(topic, MessageKey(w), kafka.serialize(w).value)
  {
  }

  // ---------------------------------------------------------------------------
  // Update: the fields copied from the request

  /** The fields an update leaves alone agree. */
  predicate SameFixedFields(a: Worker, b: Worker) {
    && a.id == b.id
    && a.age == b.age
    && a.ekycId == b.ekycId
    && a.ekycData == b.ekycData
    && a.latitude == b.latitude
    && a.longitude == b.longitude
    && a.status == b.status
    && a.timestamp == b.timestamp
  }

  /** The fields an update copies agree. */
  predicate SameEditableFields(a: Worker, b: Worker) {
    a.name == b.name && a.phoneNumber == b.phoneNumber && a.address == b.address
  }

  /** The stored record after setName, setPhoneNumber and setAddress from the request. */
  function CopyEditableFields(existing: Worker, patch: Worker): (r: Worker)
    ensures SameEditableFields(r, patch)
    ensures SameFixedFields(r, existing)
  {
    existing.(name := patch.name, phoneNumber := patch.phoneNumber, address := patch.address)
  }

  /** The update is determined by those two parts: every other field of the request is ignored. */
  lemma CopyEditableFieldsIgnoresRest(existing: Worker, p: Worker, q: Worker)
    requires SameEditableFields(p, q)
    ensures CopyEditableFields(existing, p) == CopyEditableFields(existing, q)
  {
  }

  /** Updating with the same request twice is the same as once. */
  lemma CopyEditableFieldsIdempotent(existing: Worker, patch: Worker)
    ensures CopyEditableFields(CopyEditableFields(existing, patch), patch) == CopyEditableFields(existing, patch)
  {
  }

  /** The update changes nothing exactly when the request repeats the stored name, phone and address. */
  lemma CopyEditableFieldsNoChange(existing: Worker, patch: Worker)
    ensures CopyEditableFields(existing, patch) == existing <==> SameEditableFields(existing, patch)
  {
  }

  /** A valid stored record updated from a valid request is still valid. */
  lemma CopyEditableFieldsKeepsValidity(existing: Worker, patch: Worker)
    requires IsValid(existing) && IsValid(patch)
    ensures IsValid(CopyEditableFields(existing, patch))
  {
  }

  // ---------------------------------------------------------------------------
  // Listing order

  /** Every finite non-empty set of ids has a least element. */
  lemma {:induction false} MinimumExists(ks: set<int>)
    requires ks != {}
    ensures exists m :: m in ks && IsLeast(m, ks)
    decreases |ks|
  {
    if forall y :: y !in ks { assert false; }
    var x :| x in ks;
    if ks == {x} {
      assert IsLeast(x, ks);
    } else {
      MinimumExists(ks - {x});
      var m :| m in ks - {x} && IsLeast(m, ks - {x});
      var least := if x < m then x else m;
      forall k | k in ks ensures least <= k {
        if k != x { assert k in ks - {x}; }
      }
      assert least in ks && IsLeast(least, ks);
    }
  }

  /** `m` is no larger than any element of `ks`. */
  predicate IsLeast(m: int, ks: set<int>) {
    forall k :: k in ks ==> m <= k
  }

  /** The least element of a non-empty set of ids. */
  function Minimum(ks: set<int>): (m: int)
    requires ks != {}
    ensures m in ks && IsLeast(m, ks)
  {
    MinimumExists(ks);
    var m :| m in ks && IsLeast(m, ks);
    m
  }

  /** The ids of a set in ascending order, each once. */
  function AscendingKeys(ks: set<int>): (s: seq<int>)
    ensures |s| == |ks|
    ensures forall i :: 0 <= i < |s| ==> s[i] in ks
    ensures forall k :: k in ks ==> k in s
    ensures forall i, j :: 0 <= i < j < |s| ==> s[i] < s[j]
    decreases |ks|
  {
    if ks == {} then []
    else
      var m := Minimum(ks);
      var rest := AscendingKeys(ks - {m});
      assert forall i :: 0 <= i < |rest| ==> m < rest[i];
      [m] + rest
  }

  // ---------------------------------------------------------------------------
  // The service

  class WorkerService {

    /** The worker collection, keyed by worker id. */
    var repository: map<int, Worker>
    /** The messages handed to KafkaTemplate.send, oldest first. */
    var outbox: seq<Message>
    /** Every id registration has ever assigned, including ids of records deleted since. */
    ghost var issued: set<int>

    const kafkaTopic: string
    const sequenceGenerator: Sequences.SequenceGeneratorService

    /** The value of the counter worker ids come from. */
    ghost function Counter(): int
      reads sequenceGenerator
    {
      Sequences.Current(sequenceGenerator.sequences, WorkersSequence)
    }

    /**
     * Each stored record sits under its own id; every id ever assigned is a
     * positive `int` no larger than the counter, so the counter's next value
     * is an id nobody has had.
     */
    ghost predicate Valid()
      reads this, sequenceGenerator
    {
      && 0 <= Counter()
      && repository.Keys <= issued
      && (forall k :: k in repository ==> repository[k].id == Some(k))
      && (forall i :: i in issued ==> 1 <= i <= JavaText.MaxInt && i <= Counter())
    }

    constructor (kafkaTopic: string, sequenceGenerator: Sequences.SequenceGeneratorService)
      requires 0 <= Sequences.Current(sequenceGenerator.sequences, WorkersSequence)
      ensures Valid()
      ensures repository == map[] && outbox == [] && issued == {}
      ensures this.kafkaTopic == kafkaTopic && this.sequenceGenerator == sequenceGenerator
    {
      this.kafkaTopic := kafkaTopic;
      this.sequenceGenerator := sequenceGenerator;
      repository := map[];
      outbox := [];
      issued := {};
    }

    /**
     * publishWorkerRegistrationEvent. The @Async on this private, self-invoked
     * method has no effect, so it runs inline and its errors reach the caller.
     */
    method PublishWorkerRegistrationEvent(w: Worker, kafka: KafkaClient) returns (o: Outcome)
      modifies this`outbox
      ensures o == PublishOutcome(kafka, kafkaTopic, w)
      ensures o.Pass? ==> outbox == old(outbox) + [Message(kafkaTopic, MessageKey(w), kafka.serialize(w).value)]
      ensures o.Fail? ==> outbox == old(outbox)
    {
      var json := kafka.serialize(w);
      if json.None? {
        return Fail(SerializationFailed);
      }
      if !kafka.send(kafkaTopic, MessageKey(w), json.value) {
        return Fail(PublishFailed);
      }
      outbox := outbox + [Message(kafkaTopic, MessageKey(w), json.value)];
      o := Pass;
    }

    /**
     * registerWorker: the id on the request is replaced by the next counter
     * value, the record is saved, then published. A publish error is raised
     * after the save, and the saved record stays.
     */
    method RegisterWorker(w: Worker, kafka: KafkaClient) returns (r: Result<Worker>)
      requires Valid()
      modifies this, sequenceGenerator
      ensures Valid()
      ensures sequenceGenerator.sequences == Sequences.FindAndModify(old(sequenceGenerator.sequences), WorkersSequence).0
      ensures Counter() == old(Counter()) + 1
      ensures Counter() > JavaText.MaxInt ==>
        && r == Err(SequenceOverflow(WorkersSequence, Counter()))
        && repository == old(repository) && outbox == old(outbox) && issued == old(issued)
      ensures Counter() <= JavaText.MaxInt ==>
        && Counter() !in old(issued) && Counter() !in old(repository)
        && issued == old(issued) + {Counter()}
        && repository == old(repository)[Counter() := w.(id := Some(Counter()))]
      ensures Counter() <= JavaText.MaxInt ==>
        match PublishOutcome(kafka, kafkaTopic, w.(id := Some(Counter())))
        case Pass =>
          && r == Ok(w.(id := Some(Counter())))
          && outbox == old(outbox) + [Message(kafkaTopic, JavaText.IntToString(Counter()),
                                              kafka.serialize(w.(id := Some(Counter()))).value)]
        case Fail(e) => r == Err(e) && outbox == old(outbox)
    {
      var generated := sequenceGenerator.GenerateSequence(WorkersSequence);
      if generated.Err? {
        return Err(generated.error);
      }
      var saved := w.(id := Some(generated.value));
      repository := repository[generated.value := saved];
      issued := issued + {generated.value};
      var published := PublishWorkerRegistrationEvent(saved, kafka);
      if published.Fail? {
        return Err(published.error);
      }
      r := Ok(saved);
    }

    /** getWorkerById: the stored record, or not-found. */
    method GetWorkerById(id: int) returns (r: Result<Worker>)
      ensures r.Ok? <==> id in repository
      ensures r.Ok? ==> r.value == repository[id]
      ensures r.Err? ==> r.error == WorkerNotFound(id)
    {
      if id in repository {
        r := Ok(repository[id]);
      } else {
        r := Err(WorkerNotFound(id));
      }
    }

    /** getAllWorkers: every stored record exactly once, listed here by ascending id. */
    method GetAllWorkers() returns (ws: seq<Worker>)
      requires Valid()
      ensures |ws| == |repository|
      ensures forall i :: 0 <= i < |ws| ==>
        ws[i].id.Some? && ws[i].id.value in repository && repository[ws[i].id.value] == ws[i]
      ensures forall k :: k in repository ==> repository[k] in ws
      ensures forall i, j :: 0 <= i < j < |ws| ==> ws[i].id.value < ws[j].id.value
    {
      var store := repository;
      var ids := AscendingKeys(store.Keys);
      ws := seq(|ids|, i requires 0 <= i < |ids| && ids[i] in store => store[ids[i]]);
      assert forall i :: 0 <= i < |ws| ==> ws[i] == store[ids[i]] && ws[i].id == Some(ids[i]);
      forall k | k in repository ensures repository[k] in ws {
        var i :| 0 <= i < |ids| && ids[i] == k;
        assert ws[i] == repository[k];
      }
    }

    /** deleteWorkerById: removes exactly the given record, or reports not-found and changes nothing. */
    method DeleteWorkerById(id: int) returns (o: Outcome)
      requires Valid()
      modifies this`repository
      ensures Valid()
      ensures id in old(repository) ==> o == Pass && repository == old(repository) - {id}
      ensures id !in old(repository) ==> o == Fail(WorkerNotFound(id)) && repository == old(repository)
    {
      if id in repository {
        repository := repository - {id};
        o := Pass;
      } else {
        o := Fail(WorkerNotFound(id));
      }
    }

    /**
     * updateWorkerById: name, phone number and address from the request are
     * copied onto the stored record, which is saved again; nothing is published.
     */
    method UpdateWorkerById(id: int, patch: Worker) returns (r: Result<Worker>)
      requires Valid()
      modifies this`repository
      ensures Valid()
      ensures outbox == old(outbox)
      ensures id !in old(repository) ==> r == Err(WorkerNotFound(id)) && repository == old(repository)
      ensures id in old(repository) ==>
        && r == Ok(CopyEditableFields(old(repository)[id], patch))
        && repository == old(repository)[id := r.value]
    {
      if id !in repository {
        return Err(WorkerNotFound(id));
      }
      var updated := CopyEditableFields(repository[id], patch);
      // save() keys the record by its own id, which is the id it was found under
      repository := repository[updated.id.value := updated];
      r := Ok(updated);
    }
  }

  /**
   * Two registrations on a fresh counter get ids 1 and 2 and both records are
   * listed afterwards, whatever the outcome of publishing.
   */
  method RegisterTwoWorkers(a: Worker, b: Worker, kafka: KafkaClient, topic: string) returns (ws: seq<Worker>)
    ensures |ws| == 2
    ensures ws[0] == a.(id := Some(1)) && ws[1] == b.(id := Some(2))
  {
    var generator := new Sequences.SequenceGeneratorService(map[]);
    var service := new WorkerService(topic, generator);
    var first := service.RegisterWorker(a, kafka);
    var second := service.RegisterWorker(b, kafka);
    ws := service.GetAllWorkers();
    assert service.repository == map[1 := a.(id := Some(1)), 2 := b.(id := Some(2))];
    assert ws[0].id.value < ws[1].id.value;
  }
}
