/** `createFragment`, the handler of `POST /v1/fragments`: stores a new
    fragment for the owner. The request is the owner (`req.user`), the
    body, the `Content-Type` header, and the protocol and host the
    `Location` header is built from; the fresh id and the clock are
    inputs. The handler neither validates the payload against its type nor
    refuses an empty body, and it stores the parsed base type, not the
    header as sent. Every error it catches is answered with 500. */
module PostRoute {
  import opened Wrappers
  import MediaType
  import opened DataStore
  import opened FragmentModel
  import opened Responses

  /** What the handler answers, the `Location` it sets, and what the
      backend holds afterwards. */
  datatype Outcome = Outcome(response: Response, location: Option<string>, state: StoreState)

  function Failed(st: StoreState): Outcome {
    Outcome(Error(500, InternalServerError), None, st)
  }

  /** The record a successful create stores: the fresh id, the owner, the
      constructor's instant as `created`, the instant of `save()` as
      `updated`, the base type and the body's length. */
  function NewRecord(ownerId: string, bytes: Bytes, newId: string, clock: Clock): FragmentRecord {
    FragmentRecord(newId, ownerId, clock.atConstruct, clock.atSave, "text/plain", |bytes|)
  }

  function CreateSpec(st: StoreState, ownerId: string, body: Body, header: Option<string>, newId: string,
                      clock: Clock, backend: Backend, protocol: string, host: string): (out: Outcome)
  {
    if !body.Buffer? then Outcome(Error(415, UnsupportedContentType), None, st)
    else match MediaType.ParseRequest(header)
    case Err(_) => Failed(st)
    case Ok(declared) =>
      match Construct(FragmentInit("", ownerId, "", "", declared, Number(|body.bytes|)), newId, clock.atConstruct)
      case Err(_) => Failed(st)
      case Ok(built) => CreateSaved(st, ownerId, built.(updated := clock.atSave), body.bytes, backend, protocol, host)
  }

  /** `save()`, `setData(req.body)`, `byId(req.user, fragment.id)`, then
      the `Location` header and the 201 answer. */
  function CreateSaved(st: StoreState, ownerId: string, saved: FragmentRecord, bytes: Bytes, backend: Backend,
                       protocol: string, host: string): (out: Outcome)
  {
    match backend.Failure(WriteMetadata)
    case Some(_) => Failed(st)
    case None =>
      var st1 := st.WriteFragment(saved);
      match backend.Failure(WriteData)
      case Some(_) => Failed(st1)
      case None =>
        var st2 := st1.WriteFragmentData(saved.ownerId, saved.id, bytes);
        match Fragment.ById(st2, ownerId, saved.id)
        case Err(_) => Failed(st2)
        case Ok(stored) =>
          Outcome(Response(201, FragmentBody(stored)), Some(LocationOf(protocol, host, saved.id)), st2)
  }

  method CreateFragment(store: Store, ownerId: string, body: Body, header: Option<string>, newId: string,
                        clock: Clock, backend: Backend, protocol: string, host: string)
    returns (response: Response, location: Option<string>)
    requires store.Valid()
    modifies store
    ensures store.Valid()
    ensures Outcome(response, location, store.State())
         == CreateSpec(old(store.State()), ownerId, body, header, newId, clock, backend, protocol, host)
  {
    ghost var st := store.State();
    if !body.Buffer? {
      return Error(415, UnsupportedContentType), None;
    }
    var parsed := MediaType.ParseRequest(header);
    if parsed.Err? {
      return Error(500, InternalServerError), None;
    }
    var created := Fragment.Create(FragmentInit("", ownerId, "", "", parsed.value, Number(|body.bytes|)),
                                   newId, clock.atConstruct);
    if created.Err? {
      return Error(500, InternalServerError), None;
    }
    var fragment := created.value;
    ghost var saved := fragment.Record().(updated := clock.atSave);
    assert CreateSpec(st, ownerId, body, header, newId, clock, backend, protocol, host)
        == CreateSaved(st, ownerId, saved, body.bytes, backend, protocol, host);
    var failure := fragment.Save(store, clock.atSave, backend);
    if failure.Some? {
      return Error(500, InternalServerError), None;
    }
    failure := fragment.SetData(store, body, clock.atSetData, backend);
    if failure.Some? {
      return Error(500, InternalServerError), None;
    }
    // The record was just written under this owner and id, so it is found.
    var stored := Fragment.ById(store.State(), ownerId, fragment.id);
    assert stored.Ok?;
    location := Some(LocationOf(protocol, host, fragment.id));
    response := Response(201, FragmentBody(stored.value));
  }

  /** The handler as a decision table: a body that is no buffer is 415; a
      missing or malformed header, a missing owner or a type other than
      `text/plain` is 500; otherwise the new record is written. */
  lemma CreateOutcome(st: StoreState, ownerId: string, body: Body, header: Option<string>, newId: string,
                      clock: Clock, backend: Backend, protocol: string, host: string)
    ensures CreateSpec(st, ownerId, body, header, newId, clock, backend, protocol, host) ==
      if !body.Buffer? then Outcome(Error(415, UnsupportedContentType), None, st)
      else if MediaType.ParseRequest(header) != Ok("text/plain") || ownerId == "" then Failed(st)
      else CreateSaved(st, ownerId, NewRecord(ownerId, body.bytes, newId, clock), body.bytes, backend, protocol, host)
  {
    if body.Buffer? && MediaType.ParseRequest(header).Ok? {
      var declared := MediaType.ParseRequest(header).value;
      BaseTypeIsSupportedExactlyWhen(declared);
    }
  }

  /** The writes of a create, in order: the record, then the bytes, then
      the record is read back. */
  lemma CreateWritesMetadataThenData(st: StoreState, ownerId: string, saved: FragmentRecord, bytes: Bytes,
                                     backend: Backend, protocol: string, host: string)
    requires saved.ownerId == ownerId
    ensures backend.Failure(WriteMetadata).Some? ==>
              CreateSaved(st, ownerId, saved, bytes, backend, protocol, host) == Failed(st)
    ensures backend.Failure(WriteData).Some? ==>
              CreateSaved(st, ownerId, saved, bytes, backend, protocol, host) == Failed(st.WriteFragment(saved))
    ensures backend.Failure(WriteMetadata).None? && backend.Failure(WriteData).None? ==>
              CreateSaved(st, ownerId, saved, bytes, backend, protocol, host)
              == Outcome(Response(201, FragmentBody(saved)), Some(LocationOf(protocol, host, saved.id)),
                         st.WriteFragment(saved).WriteFragmentData(ownerId, saved.id, bytes))
  {
    if backend.Failure(WriteMetadata).None? && backend.Failure(WriteData).None? {
      var st2 := st.WriteFragment(saved).WriteFragmentData(ownerId, saved.id, bytes);
      assert Fragment.ById(st2, ownerId, saved.id) == Ok(saved);
    }
  }

  /** A successful create writes the new record, then the body under the
      same key, and answers 201 with the record as stored. */
  lemma SuccessfulCreateWrites(st: StoreState, ownerId: string, bytes: Bytes, header: Option<string>,
                               newId: string, clock: Clock, backend: Backend, protocol: string, host: string)
    requires ownerId != "" && MediaType.ParseRequest(header) == Ok("text/plain")
    requires backend.Failure(WriteMetadata).None? && backend.Failure(WriteData).None?
    ensures CreateSpec(st, ownerId, Buffer(bytes), header, newId, clock, backend, protocol, host)
         == Outcome(Response(201, FragmentBody(NewRecord(ownerId, bytes, newId, clock))),
                    Some(LocationOf(protocol, host, newId)),
                    st.WriteFragment(NewRecord(ownerId, bytes, newId, clock)).WriteFragmentData(ownerId, newId, bytes))
  {
    CreateOutcome(st, ownerId, Buffer(bytes), header, newId, clock, backend, protocol, host);
    CreateWritesMetadataThenData(st, ownerId, NewRecord(ownerId, bytes, newId, clock), bytes, backend, protocol, host);
  }

  /** A successful create files the new record under the owner and the
      fresh id, stores the body under the same key, answers 201 with the
      record as stored, and points `Location` at it. Nothing else
      changes. */
  lemma SuccessfulCreate(st: StoreState, ownerId: string, bytes: Bytes, header: Option<string>, newId: string,
                         clock: Clock, backend: Backend, protocol: string, host: string)
    requires ownerId != "" && MediaType.ParseRequest(header) == Ok("text/plain")
    requires backend.Failure(WriteMetadata).None? && backend.Failure(WriteData).None?
    ensures var out := CreateSpec(st, ownerId, Buffer(bytes), header, newId, clock, backend, protocol, host);
            var k := Key(ownerId, newId);
            && out.state.metadata == st.metadata[k := NewRecord(ownerId, bytes, newId, clock)]
            && out.state.data == st.data[k := bytes]
            && out.response == Response(201, FragmentBody(NewRecord(ownerId, bytes, newId, clock)))
            && out.location == Some(LocationOf(protocol, host, newId))
  {
    SuccessfulCreateWrites(st, ownerId, bytes, header, newId, clock, backend, protocol, host);
  }

  /** A create succeeds exactly when the body is a buffer, the owner is
      set, `text/plain` is declared and neither write throws; only a
      success sets `Location`. */
  lemma CreateSucceedsExactlyWhen(st: StoreState, ownerId: string, body: Body, header: Option<string>,
                                  newId: string, clock: Clock, backend: Backend, protocol: string, host: string)
    ensures var out := CreateSpec(st, ownerId, body, header, newId, clock, backend, protocol, host);
            && (out.response.status == 201
                <==> body.Buffer? && ownerId != "" && MediaType.ParseRequest(header) == Ok("text/plain")
                     && backend.Failure(WriteMetadata).None? && backend.Failure(WriteData).None?)
            && (out.location.Some? <==> out.response.status == 201)
  {
    CreateOutcome(st, ownerId, body, header, newId, clock, backend, protocol, host);
    if body.Buffer? && ownerId != "" && MediaType.ParseRequest(header) == Ok("text/plain") {
      CreateWritesMetadataThenData(st, ownerId, NewRecord(ownerId, body.bytes, newId, clock), body.bytes, backend,
                                   protocol, host);
    }
  }

  /** A failed create answers 415 for a body that is no buffer and 500 for
      anything else, and changes nothing unless the record was written
      before the data write threw. */
  lemma FailedCreateIsReported(st: StoreState, ownerId: string, body: Body, header: Option<string>,
                               newId: string, clock: Clock, backend: Backend, protocol: string, host: string)
    ensures var out := CreateSpec(st, ownerId, body, header, newId, clock, backend, protocol, host);
            out.response.status != 201 ==>
              && out.response == (if body.Buffer? then Error(500, InternalServerError)
                                   else Error(415, UnsupportedContentType))
              && (backend.Failure(WriteData).None? ==> out.state == st)
  {
    CreateOutcome(st, ownerId, body, header, newId, clock, backend, protocol, host);
    if body.Buffer? && ownerId != "" && MediaType.ParseRequest(header) == Ok("text/plain") {
      CreateWritesMetadataThenData(st, ownerId, NewRecord(ownerId, body.bytes, newId, clock), body.bytes, backend,
                                   protocol, host);
    }
  }

  /** Unlike an update, a create accepts an empty body: it stores a
      fragment of size 0. */
  lemma EmptyBodyIsAccepted(st: StoreState, ownerId: string, header: Option<string>, newId: string,
                            clock: Clock, protocol: string, host: string)
    requires ownerId != "" && MediaType.ParseRequest(header) == Ok("text/plain")
    ensures var out := CreateSpec(st, ownerId, Buffer([]), header, newId, clock, Healthy, protocol, host);
            && out.response.status == 201
            && out.state.metadata[Key(ownerId, newId)].size == 0
            && out.state.data[Key(ownerId, newId)] == []
  {
    SuccessfulCreate(st, ownerId, [], header, newId, clock, Healthy, protocol, host);
  }

  /** Parameters in the `Content-Type` header play no part: the record
      stores the base type alone. */
  lemma CreateIgnoresParameters(st: StoreState, ownerId: string, body: Body, t: string, parameters: string,
                                newId: string, clock: Clock, backend: Backend, protocol: string, host: string)
    requires ';' !in t
    ensures CreateSpec(st, ownerId, body, Some(t + ";" + parameters), newId, clock, backend, protocol, host)
         == CreateSpec(st, ownerId, body, Some(t), newId, clock, backend, protocol, host)
  {
    MediaType.ParseIgnoresParameters(t, parameters);
    CreateOutcome(st, ownerId, body, Some(t + ";" + parameters), newId, clock, backend, protocol, host);
    CreateOutcome(st, ownerId, body, Some(t), newId, clock, backend, protocol, host);
  }

  /** `text/plain; charset=utf-8` is stored as `text/plain`. */
  lemma CharsetIsNotStored(st: StoreState, ownerId: string, bytes: Bytes, t: string, parameters: string,
                           newId: string, clock: Clock, protocol: string, host: string)
    requires t == "text/plain" && ownerId != ""
    ensures var out := CreateSpec(st, ownerId, Buffer(bytes), Some(t + ";" + parameters), newId, clock, Healthy,
                                  protocol, host);
            out.response == Response(201, FragmentBody(NewRecord(ownerId, bytes, newId, clock)))
            && out.response.payload.fragment.mediaType == t
  {
    MediaType.PlainTextIsBaseType(t);
    MediaType.TypeSubtypeIsPlain(t);
    CreateIgnoresParameters(st, ownerId, Buffer(bytes), t, parameters, newId, clock, Healthy, protocol, host);
    SuccessfulCreate(st, ownerId, bytes, Some(t), newId, clock, Healthy, protocol, host);
  }

  /** A create keeps the backend consistent when the fresh id and the
      instants are set, and intact unless the data write throws. */
  lemma CreateKeepsBackendValid(st: StoreState, ownerId: string, body: Body, header: Option<string>,
                                newId: string, clock: Clock, backend: Backend, protocol: string, host: string)
    requires Consistent(st) && newId != "" && clock.Valid()
    ensures Consistent(CreateSpec(st, ownerId, body, header, newId, clock, backend, protocol, host).state)
    ensures Intact(st) && backend.Failure(WriteData).None? ==>
              Intact(CreateSpec(st, ownerId, body, header, newId, clock, backend, protocol, host).state)
  {
    CreateOutcome(st, ownerId, body, header, newId, clock, backend, protocol, host);
    if body.Buffer? && ownerId != "" && MediaType.ParseRequest(header) == Ok("text/plain") {
      var r := NewRecord(ownerId, body.bytes, newId, clock);
      PlainTextIsSupported(r.mediaType);
      CreateWritesMetadataThenData(st, ownerId, r, body.bytes, backend, protocol, host);
      if backend.Failure(WriteMetadata).None? {
        if backend.Failure(WriteData).Some? {
          WriteKeepsConsistent(st, r);
        } else {
          WriteBothKeepsValid(st, r, body.bytes);
        }
      }
    }
  }
}
