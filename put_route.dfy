/** `updateFragmentData`, the handler of `PUT /v1/fragments/:id`: replaces
    a fragment's bytes, keeping its type. The request is the owner
    (`req.user`), the id (`req.params.id`), the body and the
    `Content-Type` header, and the protocol and host the `Location` header
    is built from; the `SyntaxError` text of `JSON.parse`, the fresh id and
    the clock are inputs. */
module PutRoute {
  import opened Wrappers
  import MediaType
  import Json
  import opened DataStore
  import opened FragmentModel
  import opened TypeValidation
  import opened Responses

  const FragmentCannotBeNull := "Fragment cannot be null"
  const TypeCannotChange := "A fragment's type can not be changed after it is created."

  function UnsupportedBecause(message: string): string {
    UnsupportedContentType + ". " + message
  }

  /** The handler's `catch`: a missing fragment is 404, any other error is
      500 with the error's own message. */
  function Caught(message: string): (r: Response)
    ensures r.status == 404 || r.status == 500
  {
    if message == DoesNotExist then Error(404, NotFound) else Error(500, message)
  }

  /** What the handler answers and what the backend holds afterwards. */
  function UpdateSpec(st: StoreState, ownerId: string, id: string, body: Body, header: Option<string>,
                      syntaxError: string, newId: string, clock: Clock, backend: Backend): (out: (Response, StoreState))
    ensures st.KeysMatch() ==> out.1.KeysMatch()
  {
    if !body.Buffer? then (Error(415, UnsupportedContentType), st)
    else if !(|body.bytes| > 0) then (Error(400, FragmentCannotBeNull), st)
    else match MediaType.ParseRequest(header)
    case Err(m) => (Caught(m), st)
    case Ok(declared) => UpdateStored(st, ownerId, id, body.bytes, declared, syntaxError, newId, clock, backend)
  }

  /** `byId(req.user, id)`, then `new Fragment(requestedFragment)` with the
      new size. */
  function UpdateStored(st: StoreState, ownerId: string, id: string, bytes: Bytes, declared: string,
                        syntaxError: string, newId: string, clock: Clock, backend: Backend): (out: (Response, StoreState))
    ensures st.KeysMatch() ==> out.1.KeysMatch()
  {
    match Fragment.ById(st, ownerId, id)
    case Err(m) => (Caught(m), st)
    case Ok(requested) =>
      match Construct(InitOf(requested), newId, clock.atConstruct)
      case Err(m) => (Caught(m), st)
      case Ok(built) => UpdateBuilt(st, ownerId, built.(size := |bytes|), bytes, declared, syntaxError, clock, backend)
  }

  /** The payload is validated against the declared type, the declared
      type is compared with the fragment's, then the fragment is saved. */
  function UpdateBuilt(st: StoreState, ownerId: string, fragment: FragmentRecord, bytes: Bytes, declared: string,
                       syntaxError: string, clock: Clock, backend: Backend): (out: (Response, StoreState))
    ensures st.KeysMatch() ==> out.1.KeysMatch()
  {
    match ValidateFragment(bytes, declared, syntaxError)
    case Err(m) => (Error(415, UnsupportedBecause(m)), st)
    case Ok(_) =>
      match MediaType.Parse(fragment.mediaType)
      case Err(m) => (Caught(m), st)
      case Ok(mime) =>
        if declared != mime then (Error(400, TypeCannotChange), st)
        else SaveAndRead(st, ownerId, fragment.(updated := clock.atSave), bytes, backend)
  }

  /** `save()`, `setData(req.body)`, then `byId(req.user, fragment.id)`. */
  function SaveAndRead(st: StoreState, ownerId: string, saved: FragmentRecord, bytes: Bytes,
                       backend: Backend): (out: (Response, StoreState))
    ensures st.KeysMatch() ==> out.1.KeysMatch()
  {
    match backend.Failure(WriteMetadata)
    case Some(m) => (Caught(m), st)
    case None =>
      var st1 := st.WriteFragment(saved);
      match backend.Failure(WriteData)
      case Some(m) => (Caught(m), st1)
      case None =>
        var st2 := st1.WriteFragmentData(saved.ownerId, saved.id, bytes);
        match Fragment.ById(st2, ownerId, saved.id)
        case Err(m) => (Caught(m), st2)
        case Ok(stored) => (Response(201, FragmentBody(stored)), st2)
  }

  method UpdateFragmentData(store: Store, ownerId: string, id: string, body: Body, header: Option<string>,
                            syntaxError: string, newId: string, clock: Clock, backend: Backend,
                            protocol: string, host: string)
    returns (response: Response, location: Option<string>)
    requires store.Valid()
    modifies store
    ensures store.Valid()
    ensures (response, store.State())
         == UpdateSpec(old(store.State()), ownerId, id, body, header, syntaxError, newId, clock, backend)
    ensures response.status == 201 ==>
              response.payload.FragmentBody? && location == Some(LocationOf(protocol, host, response.payload.fragment.id))
    ensures response.status != 201 ==> location == None
  {
    ghost var st := store.State();
    location := None;
    if !body.Buffer? {
      return Error(415, UnsupportedContentType), None;
    }
    if !(|body.bytes| > 0) {
      return Error(400, FragmentCannotBeNull), None;
    }
    var parsed := MediaType.ParseRequest(header);
    if parsed.Err? {
      return Caught(parsed.msg), None;
    }
    var declared := parsed.value;
    assert UpdateSpec(st, ownerId, id, body, header, syntaxError, newId, clock, backend)
        == UpdateStored(st, ownerId, id, body.bytes, declared, syntaxError, newId, clock, backend);
    var size := |body.bytes|;
    var requested := Fragment.ById(store.State(), ownerId, id);
    if requested.Err? {
      return Caught(requested.msg), None;
    }
    var created := Fragment.Create(InitOf(requested.value), newId, clock.atConstruct);
    if created.Err? {
      return Caught(created.msg), None;
    }
    var fragment := created.value;
    fragment.size := size;
    assert UpdateStored(st, ownerId, id, body.bytes, declared, syntaxError, newId, clock, backend)
        == UpdateBuilt(st, ownerId, fragment.Record(), body.bytes, declared, syntaxError, clock, backend);
    var validation := ValidateFragment(body.bytes, declared, syntaxError);
    if validation.Err? {
      return Error(415, UnsupportedBecause(validation.msg)), None;
    }
    // A fragment built by the constructor has a supported type, so its
    // `mimeType` getter cannot throw here.
    var mime := fragment.MimeType();
    assert mime == Ok("text/plain");
    if declared != mime.value {
      return Error(400, TypeCannotChange), None;
    }
    assert UpdateBuilt(st, ownerId, fragment.Record(), body.bytes, declared, syntaxError, clock, backend)
        == SaveAndRead(st, ownerId, fragment.Record().(updated := clock.atSave), body.bytes, backend);
    response := SaveUpdate(store, fragment, ownerId, body.bytes, clock, backend);
    if response.status == 201 {
      location := Some(LocationOf(protocol, host, response.payload.fragment.id));
    }
  }

  /** The handler's last steps: `save()`, `setData(req.body)`, then
      `byId(req.user, fragment.id)`, each error caught. */
  method SaveUpdate(store: Store, fragment: Fragment, ownerId: string, bytes: Bytes, clock: Clock, backend: Backend)
    returns (response: Response)
    requires store.Valid() && fragment.ownerId == ownerId
    modifies store, fragment
    ensures store.Valid()
    ensures (response, store.State())
         == SaveAndRead(old(store.State()), ownerId, old(fragment.Record()).(updated := clock.atSave), bytes, backend)
    ensures response.status == 201 ==> response.payload.FragmentBody?
  {
    WritesMetadataThenData(store.State(), ownerId, fragment.Record().(updated := clock.atSave), bytes, backend);
    var failure := fragment.Save(store, clock.atSave, backend);
    if failure.Some? {
      return Caught(failure.value);
    }
    failure := fragment.SetData(store, Buffer(bytes), clock.atSetData, backend);
    if failure.Some? {
      return Caught(failure.value);
    }
    // The record was just written under this owner and id, so it is found.
    var stored := Fragment.ById(store.State(), ownerId, fragment.id);
    assert stored.Ok?;
    return Response(201, FragmentBody(stored.value));
  }

  /** The backend writes of an update, in order: the record, then the
      bytes, then the record is read back. */
  lemma WritesMetadataThenData(st: StoreState, ownerId: string, saved: FragmentRecord, bytes: Bytes,
                               backend: Backend)
    requires saved.ownerId == ownerId
    ensures backend.Failure(WriteMetadata).Some? ==>
              SaveAndRead(st, ownerId, saved, bytes, backend) == (Caught(backend.message), st)
    ensures backend.Failure(WriteData).Some? ==>
              SaveAndRead(st, ownerId, saved, bytes, backend) == (Caught(backend.message), st.WriteFragment(saved))
    ensures backend.Failure(WriteMetadata).None? && backend.Failure(WriteData).None? ==>
              SaveAndRead(st, ownerId, saved, bytes, backend)
              == (Response(201, FragmentBody(saved)), st.WriteFragment(saved).WriteFragmentData(ownerId, saved.id, bytes))
  {
    if backend.Failure(WriteMetadata).None? && backend.Failure(WriteData).None? {
      var st2 := st.WriteFragment(saved).WriteFragmentData(ownerId, saved.id, bytes);
      assert Fragment.ById(st2, ownerId, saved.id) == Ok(saved);
    }
  }

  /** The record an update writes: the stored one with the new size and
      `updated` stamp. */
  function Refreshed(r: FragmentRecord, bytes: Bytes, clock: Clock): FragmentRecord {
    r.(updated := clock.atSave, size := |bytes|)
  }

  /** The handler as a decision table over a backend whose record under
      this owner and id, if any, is consistent: the checks in the order the
      handler makes them, then the writes. A fragment's base type is always
      `text/plain`, so that is the only type an update may declare. */
  lemma UpdateOutcome(st: StoreState, ownerId: string, id: string, body: Body, header: Option<string>,
                      syntaxError: string, newId: string, clock: Clock, backend: Backend)
    requires ConsistentAt(st, Key(ownerId, id))
    ensures UpdateSpec(st, ownerId, id, body, header, syntaxError, newId, clock, backend) ==
      var k := Key(ownerId, id);
      if !body.Buffer? then (Error(415, UnsupportedContentType), st)
      else if |body.bytes| == 0 then (Error(400, FragmentCannotBeNull), st)
      else if MediaType.ParseRequest(header).Err? then (Error(500, MediaType.ParseRequest(header).msg), st)
      else if k !in st.metadata then (Error(404, NotFound), st)
      else if ValidateFragment(body.bytes, MediaType.ParseRequest(header).value, syntaxError).Err? then
        (Error(415, UnsupportedBecause(InvalidJson(syntaxError))), st)
      else if MediaType.ParseRequest(header).value != "text/plain" then (Error(400, TypeCannotChange), st)
      else SaveAndRead(st, ownerId, Refreshed(st.metadata[k], body.bytes, clock), body.bytes, backend)
  {
    var k := Key(ownerId, id);
    if body.Buffer? && |body.bytes| > 0 {
      var parsed := MediaType.ParseRequest(header);
      if parsed.Err? {
        assert parsed.msg != DoesNotExist;
      } else if k in st.metadata {
        var declared := parsed.value;
        var r := st.metadata[k];
        ReconstructIsIdentity(r, newId, clock.atConstruct);
        assert UpdateSpec(st, ownerId, id, body, header, syntaxError, newId, clock, backend)
            == UpdateStored(st, ownerId, id, body.bytes, declared, syntaxError, newId, clock, backend);
        assert UpdateStored(st, ownerId, id, body.bytes, declared, syntaxError, newId, clock, backend)
            == UpdateBuilt(st, ownerId, r.(size := |body.bytes|), body.bytes, declared, syntaxError, clock, backend);
        assert MediaType.Parse(r.mediaType) == Ok("text/plain");
      }
    }
  }

  /** A body that is no buffer, or is empty, is refused before the
      backend is consulted: the answer is the same whatever it holds. */
  lemma BodyIsCheckedFirst(st: StoreState, other: StoreState, ownerId: string, id: string, body: Body,
                           header: Option<string>, syntaxError: string, newId: string, clock: Clock,
                           backend: Backend)
    requires !body.Buffer? || |body.bytes| == 0
    ensures UpdateSpec(st, ownerId, id, body, header, syntaxError, newId, clock, backend).0
         == UpdateSpec(other, ownerId, id, body, header, syntaxError, newId, clock, backend).0
         == if body.Buffer? then Error(400, FragmentCannotBeNull) else Error(415, UnsupportedContentType)
    ensures UpdateSpec(st, ownerId, id, body, header, syntaxError, newId, clock, backend).1 == st
  {
  }

  /** Updating a fragment the owner does not have is 404 and changes
      nothing, including another owner's fragment with the same id. */
  lemma UnknownFragmentIsNotFound(st: StoreState, ownerId: string, id: string, body: Body,
                                  header: Option<string>, syntaxError: string, newId: string, clock: Clock,
                                  backend: Backend)
    requires body.Buffer? && |body.bytes| > 0 && MediaType.ParseRequest(header).Ok?
    requires Key(ownerId, id) !in st.metadata
    ensures UpdateSpec(st, ownerId, id, body, header, syntaxError, newId, clock, backend)
         == (Error(404, NotFound), st)
  {
  }

  /** A declared JSON payload that is not JSON is refused as 415 even
      though a JSON type could never match the stored type: the payload is
      validated before the type is compared. */
  lemma PayloadIsValidatedBeforeType(st: StoreState, ownerId: string, id: string, bytes: Bytes,
                                     header: Option<string>, syntaxError: string, newId: string,
                                     clock: Clock, backend: Backend)
    requires Consistent(st) && Key(ownerId, id) in st.metadata
    requires |bytes| > 0 && MediaType.ParseRequest(header) == Ok(JsonType) && !Json.WellFormed(bytes)
    ensures UpdateSpec(st, ownerId, id, Buffer(bytes), header, syntaxError, newId, clock, backend)
         == (Error(415, UnsupportedBecause(InvalidJson(syntaxError))), st)
  {
    UpdateOutcome(st, ownerId, id, Buffer(bytes), header, syntaxError, newId, clock, backend);
  }

  /** A fragment's type cannot change: any declared base type but
      `text/plain` that passes validation is 400 and changes nothing. */
  lemma TypeIsImmutable(st: StoreState, ownerId: string, id: string, body: Body, header: Option<string>,
                        syntaxError: string, newId: string, clock: Clock, backend: Backend)
    requires Consistent(st) && Key(ownerId, id) in st.metadata
    requires body.Buffer? && |body.bytes| > 0
    requires MediaType.ParseRequest(header).Ok? && MediaType.ParseRequest(header).value != "text/plain"
    requires ValidateFragment(body.bytes, MediaType.ParseRequest(header).value, syntaxError).Ok?
    ensures UpdateSpec(st, ownerId, id, body, header, syntaxError, newId, clock, backend)
         == (Error(400, TypeCannotChange), st)
  {
    UpdateOutcome(st, ownerId, id, body, header, syntaxError, newId, clock, backend);
  }

  /** An update that is refused before the writes answers with an error
      and leaves the backend as it was. */
  lemma RefusedUpdateChangesNothing(st: StoreState, ownerId: string, id: string, body: Body,
                                    header: Option<string>, syntaxError: string, newId: string, clock: Clock,
                                    backend: Backend)
    requires ConsistentAt(st, Key(ownerId, id))
    requires !body.Buffer? || |body.bytes| == 0 || Key(ownerId, id) !in st.metadata
             || MediaType.ParseRequest(header) != Ok("text/plain")
    ensures UpdateSpec(st, ownerId, id, body, header, syntaxError, newId, clock, backend).0.status != 201
    ensures UpdateSpec(st, ownerId, id, body, header, syntaxError, newId, clock, backend).1 == st
  {
    UpdateOutcome(st, ownerId, id, body, header, syntaxError, newId, clock, backend);
  }

  /** An update that passes every check goes on to the writes, with the
      stored record refreshed. */
  lemma AcceptedUpdateSaves(st: StoreState, ownerId: string, id: string, bytes: Bytes, header: Option<string>,
                            syntaxError: string, newId: string, clock: Clock, backend: Backend)
    requires ConsistentAt(st, Key(ownerId, id)) && Key(ownerId, id) in st.metadata && |bytes| > 0
    requires MediaType.ParseRequest(header) == Ok("text/plain")
    ensures UpdateSpec(st, ownerId, id, Buffer(bytes), header, syntaxError, newId, clock, backend)
         == SaveAndRead(st, ownerId, Refreshed(st.metadata[Key(ownerId, id)], bytes, clock), bytes, backend)
  {
    UpdateOutcome(st, ownerId, id, Buffer(bytes), header, syntaxError, newId, clock, backend);
    assert ValidateFragment(bytes, "text/plain", syntaxError).Ok?;
  }

  /** When the record write throws, the error is reported and nothing is
      written. */
  lemma MetadataWriteFailureChangesNothing(st: StoreState, ownerId: string, id: string, bytes: Bytes,
                                           header: Option<string>, syntaxError: string, newId: string,
                                           clock: Clock, backend: Backend)
    requires ConsistentAt(st, Key(ownerId, id)) && Key(ownerId, id) in st.metadata && |bytes| > 0
    requires MediaType.ParseRequest(header) == Ok("text/plain")
    requires backend.Failure(WriteMetadata).Some?
    ensures UpdateSpec(st, ownerId, id, Buffer(bytes), header, syntaxError, newId, clock, backend)
         == (Caught(backend.message), st)
  {
    AcceptedUpdateSaves(st, ownerId, id, bytes, header, syntaxError, newId, clock, backend);
    WritesMetadataThenData(st, ownerId, Refreshed(st.metadata[Key(ownerId, id)], bytes, clock), bytes, backend);
  }

  /** When the data write throws, the error is reported but the refreshed
      record has already been written. */
  lemma DataWriteFailureKeepsRecord(st: StoreState, ownerId: string, id: string, bytes: Bytes,
                                    header: Option<string>, syntaxError: string, newId: string,
                                    clock: Clock, backend: Backend)
    requires ConsistentAt(st, Key(ownerId, id)) && Key(ownerId, id) in st.metadata && |bytes| > 0
    requires MediaType.ParseRequest(header) == Ok("text/plain")
    requires backend.Failure(WriteData).Some?
    ensures UpdateSpec(st, ownerId, id, Buffer(bytes), header, syntaxError, newId, clock, backend)
         == (Caught(backend.message), st.WriteFragment(Refreshed(st.metadata[Key(ownerId, id)], bytes, clock)))
  {
    AcceptedUpdateSaves(st, ownerId, id, bytes, header, syntaxError, newId, clock, backend);
    WritesMetadataThenData(st, ownerId, Refreshed(st.metadata[Key(ownerId, id)], bytes, clock), bytes, backend);
  }

  /** A successful update replaces exactly the fragment's bytes, its size
      and its `updated` stamp, keeps its type, and answers with the record
      as stored. */
  lemma SuccessfulUpdate(st: StoreState, ownerId: string, id: string, bytes: Bytes, header: Option<string>,
                         syntaxError: string, newId: string, clock: Clock, backend: Backend)
    requires ConsistentAt(st, Key(ownerId, id)) && Key(ownerId, id) in st.metadata && |bytes| > 0
    requires MediaType.ParseRequest(header) == Ok("text/plain")
    requires backend.Failure(WriteMetadata).None? && backend.Failure(WriteData).None?
    ensures var (response, st') := UpdateSpec(st, ownerId, id, Buffer(bytes), header, syntaxError, newId, clock, backend);
            var k := Key(ownerId, id);
            && st'.metadata == st.metadata[k := st.metadata[k].(updated := clock.atSave, size := |bytes|)]
            && st'.data == st.data[k := bytes]
            && response == Response(201, FragmentBody(st'.metadata[k]))
            && st'.metadata[k].id == id
  {
    AcceptedUpdateSaves(st, ownerId, id, bytes, header, syntaxError, newId, clock, backend);
    WritesMetadataThenData(st, ownerId, Refreshed(st.metadata[Key(ownerId, id)], bytes, clock), bytes, backend);
  }

  /** When either backend write throws, the update answers with the
      error the handler catches. */
  lemma BackendFailureIsReported(st: StoreState, ownerId: string, id: string, bytes: Bytes,
                                 header: Option<string>, syntaxError: string, newId: string,
                                 clock: Clock, backend: Backend)
    requires ConsistentAt(st, Key(ownerId, id)) && Key(ownerId, id) in st.metadata && |bytes| > 0
    requires MediaType.ParseRequest(header) == Ok("text/plain")
    requires backend.Failure(WriteMetadata).Some? || backend.Failure(WriteData).Some?
    ensures UpdateSpec(st, ownerId, id, Buffer(bytes), header, syntaxError, newId, clock, backend).0
         == Caught(backend.message)
  {
    AcceptedUpdateSaves(st, ownerId, id, bytes, header, syntaxError, newId, clock, backend);
    WritesMetadataThenData(st, ownerId, Refreshed(st.metadata[Key(ownerId, id)], bytes, clock), bytes, backend);
  }

  /** An update that is refused, or whose writes throw, is not a success. */
  lemma UpdateFailsUnlessAccepted(st: StoreState, ownerId: string, id: string, body: Body, header: Option<string>,
                                  syntaxError: string, newId: string, clock: Clock, backend: Backend)
    requires ConsistentAt(st, Key(ownerId, id))
    requires !(body.Buffer? && |body.bytes| > 0 && Key(ownerId, id) in st.metadata
               && MediaType.ParseRequest(header) == Ok("text/plain")
               && backend.Failure(WriteMetadata).None? && backend.Failure(WriteData).None?)
    ensures UpdateSpec(st, ownerId, id, body, header, syntaxError, newId, clock, backend).0.status != 201
  {
    if !body.Buffer? || |body.bytes| == 0 || Key(ownerId, id) !in st.metadata
       || MediaType.ParseRequest(header) != Ok("text/plain") {
      RefusedUpdateChangesNothing(st, ownerId, id, body, header, syntaxError, newId, clock, backend);
    } else {
      BackendFailureIsReported(st, ownerId, id, body.bytes, header, syntaxError, newId, clock, backend);
    }
  }

  /** An update succeeds exactly when the fragment exists, the body is a
      non-empty buffer, `text/plain` is declared and neither backend write
      throws. */
  lemma UpdateSucceedsExactlyWhen(st: StoreState, ownerId: string, id: string, body: Body, header: Option<string>,
                                  syntaxError: string, newId: string, clock: Clock, backend: Backend)
    requires ConsistentAt(st, Key(ownerId, id))
    ensures UpdateSpec(st, ownerId, id, body, header, syntaxError, newId, clock, backend).0.status == 201
        <==> body.Buffer? && |body.bytes| > 0 && Key(ownerId, id) in st.metadata
             && MediaType.ParseRequest(header) == Ok("text/plain")
             && backend.Failure(WriteMetadata).None? && backend.Failure(WriteData).None?
  {
    if body.Buffer? && |body.bytes| > 0 && Key(ownerId, id) in st.metadata
       && MediaType.ParseRequest(header) == Ok("text/plain")
       && backend.Failure(WriteMetadata).None? && backend.Failure(WriteData).None? {
      SuccessfulUpdate(st, ownerId, id, body.bytes, header, syntaxError, newId, clock, backend);
    } else {
      UpdateFailsUnlessAccepted(st, ownerId, id, body, header, syntaxError, newId, clock, backend);
    }
  }

  /** Only a failing data write leaves a trace: every other failure leaves
      the backend as it was. */
  lemma FailureChangesNothing(st: StoreState, ownerId: string, id: string, body: Body, header: Option<string>,
                              syntaxError: string, newId: string, clock: Clock, backend: Backend)
    requires Consistent(st) && backend.Failure(WriteData).None?
    ensures var (response, st') := UpdateSpec(st, ownerId, id, body, header, syntaxError, newId, clock, backend);
            response.status != 201 ==> st' == st
  {
    var k := Key(ownerId, id);
    assert ConsistentAt(st, k);
    if !body.Buffer? || |body.bytes| == 0 || k !in st.metadata || MediaType.ParseRequest(header) != Ok("text/plain") {
      RefusedUpdateChangesNothing(st, ownerId, id, body, header, syntaxError, newId, clock, backend);
    } else if backend.Failure(WriteMetadata).Some? {
      MetadataWriteFailureChangesNothing(st, ownerId, id, body.bytes, header, syntaxError, newId, clock, backend);
    } else {
      SuccessfulUpdate(st, ownerId, id, body.bytes, header, syntaxError, newId, clock, backend);
    }
  }

  /** The record is written before the bytes. When the data write throws,
      the new size is stored next to the old bytes: a fragment that was
      intact is no longer intact when the sizes differ. */
  lemma DataWriteFailureSplitsFragment(st: StoreState, ownerId: string, id: string, bytes: Bytes,
                                       header: Option<string>, syntaxError: string, newId: string,
                                       clock: Clock, message: string)
    requires ConsistentAt(st, Key(ownerId, id)) && Intact(st) && Key(ownerId, id) in st.metadata
    requires |bytes| > 0 && |bytes| != st.metadata[Key(ownerId, id)].size
    requires MediaType.ParseRequest(header) == Ok("text/plain")
    ensures var (response, st') :=
              UpdateSpec(st, ownerId, id, Buffer(bytes), header, syntaxError, newId, clock, FailsOn(WriteData, message));
            && response == Caught(message)
            && st'.data == st.data
            && st'.metadata == st.metadata[Key(ownerId, id) := st.metadata[Key(ownerId, id)].(updated := clock.atSave, size := |bytes|)]
            && !Intact(st')
  {
    var k := Key(ownerId, id);
    DataWriteFailureKeepsRecord(st, ownerId, id, bytes, header, syntaxError, newId, clock, FailsOn(WriteData, message));
    var st' := st.WriteFragment(Refreshed(st.metadata[k], bytes, clock));
    assert st'.metadata[k].size != |st'.data[k]|;
  }

  /** An update that passes every check keeps the backend consistent,
      and intact unless the data write throws. */
  lemma AcceptedUpdateKeepsBackendValid(st: StoreState, ownerId: string, id: string, bytes: Bytes,
                                        header: Option<string>, syntaxError: string, newId: string, clock: Clock,
                                        backend: Backend)
    requires Consistent(st) && clock.Valid() && Key(ownerId, id) in st.metadata && |bytes| > 0
    requires MediaType.ParseRequest(header) == Ok("text/plain")
    ensures Consistent(UpdateSpec(st, ownerId, id, Buffer(bytes), header, syntaxError, newId, clock, backend).1)
    ensures Intact(st) && backend.Failure(WriteData).None? ==>
              Intact(UpdateSpec(st, ownerId, id, Buffer(bytes), header, syntaxError, newId, clock, backend).1)
  {
    var r := Refreshed(st.metadata[Key(ownerId, id)], bytes, clock);
    AcceptedUpdateSaves(st, ownerId, id, bytes, header, syntaxError, newId, clock, backend);
    WritesMetadataThenData(st, ownerId, r, bytes, backend);
    if backend.Failure(WriteMetadata).None? {
      if backend.Failure(WriteData).Some? {
        WriteKeepsConsistent(st, r);
      } else {
        WriteBothKeepsValid(st, r, bytes);
      }
    }
  }

  /** Every update keeps the backend consistent, and intact unless the
      data write throws. */
  lemma UpdateKeepsBackendValid(st: StoreState, ownerId: string, id: string, body: Body,
                                header: Option<string>, syntaxError: string, newId: string, clock: Clock,
                                backend: Backend)
    requires Consistent(st) && clock.Valid()
    ensures Consistent(UpdateSpec(st, ownerId, id, body, header, syntaxError, newId, clock, backend).1)
    ensures Intact(st) && backend.Failure(WriteData).None? ==>
              Intact(UpdateSpec(st, ownerId, id, body, header, syntaxError, newId, clock, backend).1)
  {
    if !body.Buffer? || |body.bytes| == 0 || Key(ownerId, id) !in st.metadata
       || MediaType.ParseRequest(header) != Ok("text/plain") {
      RefusedUpdateChangesNothing(st, ownerId, id, body, header, syntaxError, newId, clock, backend);
    } else {
      AcceptedUpdateKeepsBackendValid(st, ownerId, id, body.bytes, header, syntaxError, newId, clock, backend);
    }
  }

  /** Parameters in the `Content-Type` header play no part in an update. */
  lemma ParametersAreIgnored(st: StoreState, ownerId: string, id: string, body: Body, t: string,
                             parameters: string, syntaxError: string, newId: string, clock: Clock,
                             backend: Backend)
    requires ';' !in t
    ensures UpdateSpec(st, ownerId, id, body, Some(t + ";" + parameters), syntaxError, newId, clock, backend)
         == UpdateSpec(st, ownerId, id, body, Some(t), syntaxError, newId, clock, backend)
  {
    MediaType.ParseIgnoresParameters(t, parameters);
    var parsed := MediaType.ParseRequest(Some(t));
    assert MediaType.ParseRequest(Some(t + ";" + parameters)) == parsed;
    if body.Buffer? && |body.bytes| > 0 && parsed.Ok? {
      assert UpdateSpec(st, ownerId, id, body, Some(t + ";" + parameters), syntaxError, newId, clock, backend)
          == UpdateStored(st, ownerId, id, body.bytes, parsed.value, syntaxError, newId, clock, backend);
    }
  }
}
