/** `deleteFragment`, the handler of `DELETE /v1/fragments/:id`: removes a
    fragment's record and bytes. The fragment is looked up, rebuilt with
    the constructor, then deleted in one backend call; success is answered
    with 201. The instant the constructor reads and a fresh id are
    inputs. */
module DeleteRoute {
  import opened Wrappers
  import opened DataStore
  import opened FragmentModel
  import opened Responses

  /** The handler's `catch`: a missing fragment is 404, any other error is
      500 with a fixed message. */
  function Caught(message: string): (r: Response)
    ensures r.status == 404 <==> message == DoesNotExist
    ensures r.status == 404 || r == Error(500, InternalServerError)
  {
    if message == DoesNotExist then Error(404, NotFound) else Error(500, InternalServerError)
  }

  function DeleteSpec(st: StoreState, ownerId: string, id: string, newId: string, now: string,
                      backend: Backend): (out: (Response, StoreState))
  {
    match Fragment.ById(st, ownerId, id)
    case Err(m) => (Caught(m), st)
    case Ok(requested) =>
      match Construct(InitOf(requested), newId, now)
      case Err(m) => (Caught(m), st)
      case Ok(fragment) =>
        match backend.Failure(DeleteBoth)
        case Some(m) => (Caught(m), st)
        case None => (Response(201, Done), st.DeleteFragment(fragment.ownerId, fragment.id))
  }

  method DeleteFragment(store: Store, ownerId: string, id: string, newId: string, now: string, backend: Backend)
    returns (response: Response)
    requires store.Valid()
    modifies store
    ensures store.Valid()
    ensures (response, store.State()) == DeleteSpec(old(store.State()), ownerId, id, newId, now, backend)
  {
    var requested := Fragment.ById(store.State(), ownerId, id);
    if requested.Err? {
      return Caught(requested.msg);
    }
    var built := Fragment.Create(InitOf(requested.value), newId, now);
    if built.Err? {
      return Caught(built.msg);
    }
    var fragment := built.value;
    var failure := Fragment.Delete(store, fragment.ownerId, fragment.id, backend);
    if failure.Some? {
      return Caught(failure.value);
    }
    return Response(201, Done);
  }

  /** The handler as a decision table over a backend whose record under
      this owner and id, if any, is consistent. */
  lemma DeleteOutcome(st: StoreState, ownerId: string, id: string, newId: string, now: string, backend: Backend)
    requires ConsistentAt(st, Key(ownerId, id))
    ensures DeleteSpec(st, ownerId, id, newId, now, backend) ==
      if Key(ownerId, id) !in st.metadata then (Error(404, NotFound), st)
      else if backend.Failure(DeleteBoth).Some? then (Caught(backend.message), st)
      else (Response(201, Done), st.DeleteFragment(ownerId, id))
  {
    if Key(ownerId, id) in st.metadata {
      ReconstructIsIdentity(st.metadata[Key(ownerId, id)], newId, now);
    }
  }

  /** A delete succeeds exactly when the owner has the fragment and the
      backend call does not throw; a missing fragment is 404. */
  lemma DeleteSucceedsExactlyWhen(st: StoreState, ownerId: string, id: string, newId: string, now: string,
                                  backend: Backend)
    requires ConsistentAt(st, Key(ownerId, id))
    ensures DeleteSpec(st, ownerId, id, newId, now, backend).0.status == 201
        <==> Key(ownerId, id) in st.metadata && backend.Failure(DeleteBoth).None?
    ensures Key(ownerId, id) !in st.metadata ==> DeleteSpec(st, ownerId, id, newId, now, backend).0.status == 404
  {
    DeleteOutcome(st, ownerId, id, newId, now, backend);
  }

  /** A successful delete removes exactly this owner's record and bytes
      for the id; a failed one changes nothing. */
  lemma DeleteRemovesOnlyThatFragment(st: StoreState, ownerId: string, id: string, newId: string, now: string,
                                      backend: Backend)
    requires ConsistentAt(st, Key(ownerId, id))
    ensures var (response, st') := DeleteSpec(st, ownerId, id, newId, now, backend);
            if response.status == 201 then
              st'.metadata == st.metadata - {Key(ownerId, id)} && st'.data == st.data - {Key(ownerId, id)}
            else st' == st
  {
    DeleteOutcome(st, ownerId, id, newId, now, backend);
    if Key(ownerId, id) in st.metadata && backend.Failure(DeleteBoth).None? {
      assert DeleteSpec(st, ownerId, id, newId, now, backend).1 == st.DeleteFragment(ownerId, id);
    } else {
      assert DeleteSpec(st, ownerId, id, newId, now, backend).0.status != 201;
    }
  }

  /** A delete keeps the backend consistent and intact. */
  lemma DeleteKeepsBackendValid(st: StoreState, ownerId: string, id: string, newId: string, now: string,
                                backend: Backend)
    requires Consistent(st)
    ensures Consistent(DeleteSpec(st, ownerId, id, newId, now, backend).1)
    ensures Intact(st) ==> Intact(DeleteSpec(st, ownerId, id, newId, now, backend).1)
  {
    assert ConsistentAt(st, Key(ownerId, id));
    DeleteOutcome(st, ownerId, id, newId, now, backend);
    DeleteKeepsConsistent(st, ownerId, id);
  }

  /** Deleting twice: the second delete finds nothing and is 404. */
  lemma SecondDeleteIsNotFound(st: StoreState, ownerId: string, id: string, newId: string, now: string,
                               backend: Backend, retry: Backend)
    requires ConsistentAt(st, Key(ownerId, id))
    requires DeleteSpec(st, ownerId, id, newId, now, backend).0.status == 201
    ensures var st' := DeleteSpec(st, ownerId, id, newId, now, backend).1;
            DeleteSpec(st', ownerId, id, newId, now, retry) == (Error(404, NotFound), st')
  {
    DeleteOutcome(st, ownerId, id, newId, now, backend);
  }
}
