/** The storage backend the fragment model calls: fragment metadata and
    fragment bytes, each kept per `(ownerId, id)`. The backend itself
    (in-memory or cloud) is chosen by configuration and is not part of the
    model; what is modelled is the contract its callers rely on. Every
    write or delete is a fallible call; `Backend` says which call, if any,
    throws. */
module DataStore {
  import opened Wrappers

  /** A fragment's metadata record, as written and read back. */
  datatype FragmentRecord = FragmentRecord(
    id: string,
    ownerId: string,
    created: string,
    updated: string,
    mediaType: string,
    size: int)

  datatype Key = Key(ownerId: string, id: string)

  /** What listing an owner's fragments returns: ids, or whole records. */
  datatype Listing = Ids(ids: set<string>) | Expanded(fragments: set<FragmentRecord>)

  /** The backend calls that can fail. */
  datatype StoreCall = WriteMetadata | WriteData | DeleteBoth

  /** The behaviour of the backend during one request: every call succeeds,
      or the named call throws an error with the given message. */
  datatype Backend = Healthy | FailsOn(call: StoreCall, message: string) {
    function Failure(c: StoreCall): (r: Option<string>)
      ensures r.Some? <==> FailsOn? && call == c
    {
      if FailsOn? && call == c then Some(message) else None
    }
  }

  /** The two maps of the backend. */
  datatype StoreState = StoreState(metadata: map<Key, FragmentRecord>, data: map<Key, Bytes>) {

    /** Every record is filed under its own owner and id. */
    ghost predicate KeysMatch() {
      forall k :: k in metadata ==> metadata[k].ownerId == k.ownerId && metadata[k].id == k.id
    }

    /** `readFragment(ownerId, id)`: the record, or nothing. */
    function ReadFragment(ownerId: string, id: string): (r: Option<FragmentRecord>)
      ensures r.Some? <==> Key(ownerId, id) in metadata
      ensures r.Some? ==> r.value == metadata[Key(ownerId, id)]
    {
      if Key(ownerId, id) in metadata then Some(metadata[Key(ownerId, id)]) else None
    }

    /** `readFragmentData(ownerId, id)`: the bytes, or nothing. */
    function ReadFragmentData(ownerId: string, id: string): (r: Option<Bytes>)
      ensures r.Some? <==> Key(ownerId, id) in data
      ensures r.Some? ==> r.value == data[Key(ownerId, id)]
    {
      if Key(ownerId, id) in data then Some(data[Key(ownerId, id)]) else None
    }

    /** `writeFragment(fragment)`: the record is read back as written and
        nothing else changes. */
    function WriteFragment(r: FragmentRecord): (st: StoreState)
      ensures st.ReadFragment(r.ownerId, r.id) == Some(r)
      ensures forall k :: k != Key(r.ownerId, r.id) ==>
        (k in st.metadata <==> k in metadata) && (k in metadata ==> st.metadata[k] == metadata[k])
      ensures st.metadata.Keys == metadata.Keys + {Key(r.ownerId, r.id)}
      ensures st.data == data
      ensures KeysMatch() ==> st.KeysMatch()
    {
      StoreState(metadata[Key(r.ownerId, r.id) := r], data)
    }

    /** `writeFragmentData(ownerId, id, buffer)`: the bytes are read back as
        written and nothing else changes. */
    function WriteFragmentData(ownerId: string, id: string, bytes: Bytes): (st: StoreState)
      ensures st.ReadFragmentData(ownerId, id) == Some(bytes)
      ensures forall k :: k != Key(ownerId, id) ==>
        (k in st.data <==> k in data) && (k in data ==> st.data[k] == data[k])
      ensures st.data.Keys == data.Keys + {Key(ownerId, id)}
      ensures st.metadata == metadata
    {
      StoreState(metadata, data[Key(ownerId, id) := bytes])
    }

    /** `deleteFragment(ownerId, id)`: both the record and the bytes are
        gone and every other fragment is kept. */
    function DeleteFragment(ownerId: string, id: string): (st: StoreState)
      ensures st.ReadFragment(ownerId, id).None? && st.ReadFragmentData(ownerId, id).None?
      ensures st.metadata.Keys == metadata.Keys - {Key(ownerId, id)}
      ensures st.data.Keys == data.Keys - {Key(ownerId, id)}
      ensures forall k :: k in st.metadata ==> st.metadata[k] == metadata[k]
      ensures forall k :: k in st.data ==> st.data[k] == data[k]
      ensures KeysMatch() ==> st.KeysMatch()
    {
      StoreState(metadata - {Key(ownerId, id)}, data - {Key(ownerId, id)})
    }

    /** `listFragments(ownerId, expand)`: the owner's ids, or with `expand`
        the owner's records; never anything filed under another owner. */
    function ListFragments(ownerId: string, expand: bool): (l: Listing)
      ensures l.Ids? <==> !expand
      ensures l.Ids? ==> forall id :: id in l.ids <==> Key(ownerId, id) in metadata
      ensures l.Expanded? ==> forall r :: r in l.fragments <==>
        exists k :: k in metadata && k.ownerId == ownerId && metadata[k] == r
    {
      if expand then Expanded(set k | k in metadata && k.ownerId == ownerId :: metadata[k])
      else Ids(set k | k in metadata && k.ownerId == ownerId :: k.id)
    }
  }

  /** An owner with nothing stored lists an empty collection, not an error. */
  lemma UnknownOwnerListsNothing(st: StoreState, ownerId: string, expand: bool)
    requires forall k :: k in st.metadata ==> k.ownerId != ownerId
    ensures st.ListFragments(ownerId, expand) == if expand then Expanded({}) else Ids({})
  {
    var l := st.ListFragments(ownerId, expand);
    if expand {
      assert forall r :: r !in l.fragments;
    } else {
      assert forall id :: id !in l.ids;
    }
  }

  /** After a record is written, listing its owner is not empty. */
  lemma WrittenFragmentIsListed(st: StoreState, r: FragmentRecord)
    ensures r.id in st.WriteFragment(r).ListFragments(r.ownerId, false).ids
    ensures r in st.WriteFragment(r).ListFragments(r.ownerId, true).fragments
  {
    var st' := st.WriteFragment(r);
    assert Key(r.ownerId, r.id) in st'.metadata;
  }

  /** Deleting a fragment that was written under a fresh key gives the
      backend back as it was. */
  lemma DeleteUndoesWrite(st: StoreState, r: FragmentRecord, bytes: Bytes)
    requires Key(r.ownerId, r.id) !in st.metadata && Key(r.ownerId, r.id) !in st.data
    ensures st.WriteFragment(r).WriteFragmentData(r.ownerId, r.id, bytes).DeleteFragment(r.ownerId, r.id) == st
  {
    var k := Key(r.ownerId, r.id);
    var st' := st.WriteFragment(r).WriteFragmentData(r.ownerId, r.id, bytes).DeleteFragment(r.ownerId, r.id);
    assert st'.metadata == st.metadata[k := r] - {k};
    assert st.metadata[k := r] - {k} == st.metadata;
    assert st'.data == st.data[k := bytes] - {k};
    assert st.data[k := bytes] - {k} == st.data;
  }

  /** The backend as the fragment model holds it: two maps that its methods
      replace. */
  class Store {
    var metadata: map<Key, FragmentRecord>
    var data: map<Key, Bytes>

    function State(): StoreState
      reads this
    {
      StoreState(metadata, data)
    }

    ghost predicate Valid()
      reads this
    {
      State().KeysMatch()
    }

    constructor ()
      ensures Valid() && State() == StoreState(map[], map[])
    {
      metadata := map[];
      data := map[];
    }

    method WriteFragment(r: FragmentRecord, backend: Backend) returns (failure: Option<string>)
      requires Valid()
      modifies this
      ensures Valid()
      ensures failure == backend.Failure(WriteMetadata)
      ensures State() == if failure.Some? then old(State()) else old(State()).WriteFragment(r)
    {
      failure := backend.Failure(WriteMetadata);
      if failure.None? {
        metadata := metadata[Key(r.ownerId, r.id) := r];
      }
    }

    method WriteFragmentData(ownerId: string, id: string, bytes: Bytes, backend: Backend)
      returns (failure: Option<string>)
      requires Valid()
      modifies this
      ensures Valid()
      ensures failure == backend.Failure(WriteData)
      ensures State() == if failure.Some? then old(State()) else old(State()).WriteFragmentData(ownerId, id, bytes)
    {
      failure := backend.Failure(WriteData);
      if failure.None? {
        data := data[Key(ownerId, id) := bytes];
      }
    }

    method DeleteFragment(ownerId: string, id: string, backend: Backend) returns (failure: Option<string>)
      requires Valid()
      modifies this
      ensures Valid()
      ensures failure == backend.Failure(DeleteBoth)
      ensures State() == if failure.Some? then old(State()) else old(State()).DeleteFragment(ownerId, id)
    {
      failure := backend.Failure(DeleteBoth);
      if failure.None? {
        metadata := metadata - {Key(ownerId, id)};
        data := data - {Key(ownerId, id)};
      }
    }
  }
}
