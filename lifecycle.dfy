/** How the routes compose over one backend: what a create makes visible
    to the list, update and delete routes, and what a delete takes away. */
module Lifecycle {
  import opened Wrappers
  import MediaType
  import opened DataStore
  import opened FragmentModel
  import opened Responses
  import PostRoute
  import PutRoute
  import DeleteRoute
  import ListRoute

  /** A created fragment is listed for its owner, by id and expanded. */
  lemma CreatedFragmentIsListed(st: StoreState, ownerId: string, bytes: Bytes, header: Option<string>,
                                newId: string, clock: Clock, protocol: string, host: string)
    requires ownerId != "" && MediaType.ParseRequest(header) == Ok("text/plain")
    ensures var st' := PostRoute.CreateSpec(st, ownerId, Buffer(bytes), header, newId, clock, Healthy, protocol, host).state;
            && newId in ListRoute.GetFragmentsList(st', ownerId, None).payload.fragments.ids
            && PostRoute.NewRecord(ownerId, bytes, newId, clock)
               in ListRoute.GetFragmentsList(st', ownerId, Some("1")).payload.fragments.fragments
  {
    var r := PostRoute.NewRecord(ownerId, bytes, newId, clock);
    var st1 := st.WriteFragment(r);
    assert PostRoute.CreateSpec(st, ownerId, Buffer(bytes), header, newId, clock, Healthy, protocol, host).state
        == st1.WriteFragmentData(ownerId, newId, bytes) by {
      PostRoute.SuccessfulCreateWrites(st, ownerId, bytes, header, newId, clock, Healthy, protocol, host);
    }
    WrittenFragmentIsListed(st, r);
    assert st1.WriteFragmentData(ownerId, newId, bytes).metadata == st1.metadata;
  }

  /** The record a create stores is one the constructor could have made,
      once the fresh id and the instants are set. */
  lemma NewRecordIsConsistent(ownerId: string, bytes: Bytes, newId: string, clock: Clock)
    requires ownerId != "" && newId != "" && clock.Valid()
    ensures WellFormed(PostRoute.NewRecord(ownerId, bytes, newId, clock))
    ensures Stamped(PostRoute.NewRecord(ownerId, bytes, newId, clock))
  {
    PlainTextIsSupported(PostRoute.NewRecord(ownerId, bytes, newId, clock).mediaType);
  }

  /** A created fragment can be updated: a non-empty `text/plain` body
      replaces its bytes and keeps its `created` stamp. */
  lemma CreatedFragmentCanBeUpdated(st: StoreState, ownerId: string, bytes: Bytes, header: Option<string>,
                                    newId: string, clock: Clock, protocol: string, host: string,
                                    update: Bytes, syntaxError: string, otherId: string, later: Clock)
    requires ownerId != "" && newId != "" && clock.Valid() && |update| > 0
    requires MediaType.ParseRequest(header) == Ok("text/plain")
    ensures var st' := PostRoute.CreateSpec(st, ownerId, Buffer(bytes), header, newId, clock, Healthy, protocol, host).state;
            var (response, st'') := PutRoute.UpdateSpec(st', ownerId, newId, Buffer(update), header, syntaxError,
                                                        otherId, later, Healthy);
            && response.status == 201
            && st''.ReadFragmentData(ownerId, newId) == Some(update)
            && st''.ReadFragment(ownerId, newId).Some?
            && st''.ReadFragment(ownerId, newId).value.created == clock.atConstruct
            && st''.ReadFragment(ownerId, newId).value.size == |update|
  {
    PostRoute.SuccessfulCreate(st, ownerId, bytes, header, newId, clock, Healthy, protocol, host);
    var st' := PostRoute.CreateSpec(st, ownerId, Buffer(bytes), header, newId, clock, Healthy, protocol, host).state;
    NewRecordIsConsistent(ownerId, bytes, newId, clock);
    assert ConsistentAt(st', Key(ownerId, newId));
    PutRoute.SuccessfulUpdate(st', ownerId, newId, update, header, syntaxError, otherId, later, Healthy);
  }

  /** Creating a fragment under a fresh key and deleting it gives the
      backend back as it was. */
  lemma CreateThenDeleteRestores(st: StoreState, ownerId: string, bytes: Bytes, header: Option<string>,
                                 newId: string, clock: Clock, protocol: string, host: string,
                                 otherId: string, now: string)
    requires ownerId != "" && newId != "" && clock.Valid()
    requires MediaType.ParseRequest(header) == Ok("text/plain")
    requires Key(ownerId, newId) !in st.metadata && Key(ownerId, newId) !in st.data
    ensures var st' := PostRoute.CreateSpec(st, ownerId, Buffer(bytes), header, newId, clock, Healthy, protocol, host).state;
            DeleteRoute.DeleteSpec(st', ownerId, newId, otherId, now, Healthy) == (Response(201, Done), st)
  {
    var r := PostRoute.NewRecord(ownerId, bytes, newId, clock);
    var st' := st.WriteFragment(r).WriteFragmentData(ownerId, newId, bytes);
    assert PostRoute.CreateSpec(st, ownerId, Buffer(bytes), header, newId, clock, Healthy, protocol, host).state
        == st' by {
      PostRoute.SuccessfulCreateWrites(st, ownerId, bytes, header, newId, clock, Healthy, protocol, host);
    }
    NewRecordIsConsistent(ownerId, bytes, newId, clock);
    assert ConsistentAt(st', Key(ownerId, newId));
    DeleteRoute.DeleteOutcome(st', ownerId, newId, otherId, now, Healthy);
    DeleteUndoesWrite(st, r, bytes);
  }

  /** After a delete, updating the fragment is 404. */
  lemma DeletedFragmentIsNotFound(st: StoreState, ownerId: string, id: string, newId: string, now: string,
                                  backend: Backend, bytes: Bytes, header: Option<string>, syntaxError: string,
                                  clock: Clock, retry: Backend)
    requires ConsistentAt(st, Key(ownerId, id))
    requires DeleteRoute.DeleteSpec(st, ownerId, id, newId, now, backend).0.status == 201
    requires |bytes| > 0 && MediaType.ParseRequest(header).Ok?
    ensures var st' := DeleteRoute.DeleteSpec(st, ownerId, id, newId, now, backend).1;
            PutRoute.UpdateSpec(st', ownerId, id, Buffer(bytes), header, syntaxError, newId, clock, retry)
            == (Error(404, NotFound), st')
  {
    DeleteRoute.DeleteOutcome(st, ownerId, id, newId, now, backend);
    var st' := DeleteRoute.DeleteSpec(st, ownerId, id, newId, now, backend).1;
    PutRoute.UnknownFragmentIsNotFound(st', ownerId, id, Buffer(bytes), header, syntaxError, newId, clock, retry);
  }
}
