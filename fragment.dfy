/** The `Fragment` class: validation of a fragment's fields when one is
    built, its type getters, and the calls that read and write it through
    the storage backend. `randomUUID()` and `new Date()` are inputs: a
    fresh id, and one instant per call. */
module FragmentModel {
  import opened Wrappers
  import MediaType
  import opened DataStore

  /** The base types a fragment may have. */
  const ValidTypes: seq<string> := ["text/plain"]

  const OwnerAndTypeRequired := "Owner Id and type are required"
  const SizeMustBeNumber := "Size should be a number which is >= 0"
  const NotABuffer := "Invalid Data. Data is not a buffer"
  const DoesNotExist := "Fragment does not exist"

  function InvalidType(mediaType: string): string {
    "Invalid Type: " + mediaType
  }

  /** The `size` field handed to the constructor: left out (it defaults
      to 0), a number, or a value of another JS type. */
  datatype Size = Absent | Number(n: int) | NotANumber

  /** The object handed to `new Fragment(...)`; "" stands for a missing or
      empty string field. */
  datatype FragmentInit = FragmentInit(
    id: string,
    ownerId: string,
    created: string,
    updated: string,
    mediaType: string,
    size: Size)

  /** A request body: raw bytes when the body parser produced a `Buffer`. */
  datatype Body = Buffer(bytes: Bytes) | NotBuffer

  /** The instants `new Date()` yields during one request, in the order the
      source calls it: in the constructor, in `save`, in `setData`. */
  datatype Clock = Clock(atConstruct: string, atSave: string, atSetData: string) {
    predicate Valid() {
      atConstruct != "" && atSave != "" && atSetData != ""
    }
  }

  /** A stored record handed back to the constructor. */
  function InitOf(r: FragmentRecord): FragmentInit {
    FragmentInit(r.id, r.ownerId, r.created, r.updated, r.mediaType, Number(r.size))
  }

  /** `Fragment.isSupportedType(value)`: the value's base type is one of
      the valid types; a value that is no media type throws. */
  function IsSupportedType(value: string): (r: Result<bool>)
    ensures r.Err? <==> MediaType.Parse(value).Err?
    ensures r.Err? ==> r.msg == MediaType.InvalidMediaType
    ensures r == Ok(true) <==> MediaType.Parse(value) == Ok("text/plain")
  {
    match MediaType.Parse(value)
    case Err(m) => Err(m)
    case Ok(t) => Ok(t in ValidTypes)
  }

  /** Every listed valid type is supported. */
  lemma ValidTypesAreSupported()
    ensures forall t :: t in ValidTypes ==> IsSupportedType(t) == Ok(true)
  {
    PlainTextIsSupported(ValidTypes[0]);
  }

  lemma PlainTextIsSupported(t: string)
    requires t == "text/plain"
    ensures IsSupportedType(t) == Ok(true)
  {
    MediaType.PlainTextIsBaseType(t);
  }

  /** A base type, such as the one a parsed `Content-Type` yields, is
      supported exactly when it is `text/plain`. */
  lemma BaseTypeIsSupportedExactlyWhen(t: string)
    requires MediaType.IsBaseType(t)
    ensures IsSupportedType(t) == Ok(t == "text/plain")
  {
    MediaType.BaseTypeIsFixedPoint(t);
  }

  /** `text/plain` with parameters is supported too. */
  lemma PlainTextWithParametersIsSupported(t: string, parameters: string)
    requires t == "text/plain"
    ensures IsSupportedType(t + ";" + parameters) == Ok(true)
  {
    MediaType.PlainTextIsBaseType(t);
    MediaType.TypeSubtypeIsPlain(t);
    MediaType.ParseIgnoresParameters(t, parameters);
  }

  /** What the constructor guarantees of every fragment it builds. */
  predicate WellFormed(r: FragmentRecord) {
    r.ownerId != "" && r.mediaType != "" && IsSupportedType(r.mediaType) == Ok(true) && r.size >= 0
  }

  /** The id and both timestamps are set. */
  predicate Stamped(r: FragmentRecord) {
    r.id != "" && r.created != "" && r.updated != ""
  }

  /** `new Fragment(init)`: the record built, or the error thrown, checked
      in the source's order: owner and type, type, size. */
  function Construct(init: FragmentInit, newId: string, now: string): (r: Result<FragmentRecord>)
    ensures r.Ok? <==> init.ownerId != "" && init.mediaType != ""
                       && IsSupportedType(init.mediaType) == Ok(true)
                       && !init.size.NotANumber? && !(init.size.Number? && init.size.n < 0)
    ensures r.Err? ==>
              r.msg == (if init.ownerId == "" || init.mediaType == "" then OwnerAndTypeRequired
                        else if IsSupportedType(init.mediaType).Err? then MediaType.InvalidMediaType
                        else if IsSupportedType(init.mediaType) == Ok(false) then InvalidType(init.mediaType)
                        else SizeMustBeNumber)
    ensures r.Ok? ==> WellFormed(r.value)
    ensures r.Ok? ==> r.value.ownerId == init.ownerId && r.value.mediaType == init.mediaType
    ensures r.Ok? ==> r.value.size == if init.size.Number? then init.size.n else 0
    ensures r.Ok? ==> r.value.id == if init.id != "" then init.id else newId
    ensures r.Ok? ==> r.value.created == (if init.created != "" then init.created else now)
    ensures r.Ok? ==> r.value.updated == (if init.updated != "" then init.updated else now)
    ensures r.Ok? && newId != "" && now != "" ==> Stamped(r.value)
  {
    if init.ownerId == "" || init.mediaType == "" then Err(OwnerAndTypeRequired)
    else match IsSupportedType(init.mediaType)
    case Err(m) => Err(m)
    case Ok(supported) =>
      if !supported then Err(InvalidType(init.mediaType))
      else match init.size
      case NotANumber => Err(SizeMustBeNumber)
      case Absent => Ok(Build(init, newId, now, 0))
      case Number(n) => if n < 0 then Err(SizeMustBeNumber) else Ok(Build(init, newId, now, n))
  }

  function Build(init: FragmentInit, newId: string, now: string, size: int): FragmentRecord {
    FragmentRecord(
      if init.id != "" then init.id else newId,
      init.ownerId,
      if init.created != "" then init.created else now,
      if init.updated != "" then init.updated else now,
      init.mediaType,
      size)
  }

  /** Building a fragment from a record the constructor could have made
      gives that record back, whatever id and instant are at hand. */
  lemma ReconstructIsIdentity(r: FragmentRecord, newId: string, now: string)
    requires WellFormed(r) && Stamped(r)
    ensures Construct(InitOf(r), newId, now) == Ok(r)
  {
  }

  /** The backend as the routes rely on it: records filed under their own
      key, each one a record the constructor could have made. */
  ghost predicate Consistent(st: StoreState) {
    st.KeysMatch() && forall k :: k in st.metadata ==> WellFormed(st.metadata[k]) && Stamped(st.metadata[k])
  }

  /** What `Consistent` says about the one record filed under `k`, if any. */
  ghost predicate ConsistentAt(st: StoreState, k: Key) {
    k in st.metadata ==>
      && st.metadata[k].ownerId == k.ownerId && st.metadata[k].id == k.id
      && WellFormed(st.metadata[k]) && Stamped(st.metadata[k])
  }

  /** Every fragment has both its record and its bytes, and its size is
      the length of its bytes. */
  ghost predicate Intact(st: StoreState) {
    st.metadata.Keys == st.data.Keys
    && forall k :: k in st.metadata ==> st.metadata[k].size == |st.data[k]|
  }

  /** Writing a well-formed record keeps the backend consistent. */
  lemma WriteKeepsConsistent(st: StoreState, r: FragmentRecord)
    requires Consistent(st) && WellFormed(r) && Stamped(r)
    ensures Consistent(st.WriteFragment(r))
  {
    var st' := st.WriteFragment(r);
    forall k | k in st'.metadata
      ensures WellFormed(st'.metadata[k]) && Stamped(st'.metadata[k])
    {
      if k != Key(r.ownerId, r.id) {
        assert st'.metadata[k] == st.metadata[k];
      }
    }
  }

  /** Writing a well-formed record and then bytes of its size under the
      same key keeps the backend consistent, and intact when it was. */
  lemma WriteBothKeepsValid(st: StoreState, r: FragmentRecord, bytes: Bytes)
    requires Consistent(st) && WellFormed(r) && Stamped(r) && r.size == |bytes|
    ensures Consistent(st.WriteFragment(r).WriteFragmentData(r.ownerId, r.id, bytes))
    ensures Intact(st) ==> Intact(st.WriteFragment(r).WriteFragmentData(r.ownerId, r.id, bytes))
  {
    WriteKeepsConsistent(st, r);
    var st' := st.WriteFragment(r).WriteFragmentData(r.ownerId, r.id, bytes);
    assert st'.metadata == st.WriteFragment(r).metadata;
    if Intact(st) {
      forall k | k in st'.metadata
        ensures st'.metadata[k].size == |st'.data[k]|
      {
        if k != Key(r.ownerId, r.id) {
          assert st'.metadata[k] == st.metadata[k] && st'.data[k] == st.data[k];
        }
      }
    }
  }

  /** Deleting keeps the backend consistent and intact. */
  lemma DeleteKeepsConsistent(st: StoreState, ownerId: string, id: string)
    requires Consistent(st)
    ensures Consistent(st.DeleteFragment(ownerId, id))
    ensures Intact(st) ==> Intact(st.DeleteFragment(ownerId, id))
  {
  }

  class Fragment {
    var id: string
    var ownerId: string
    var created: string
    var updated: string
    var mediaType: string
    var size: int

    function Record(): FragmentRecord
      reads this
    {
      FragmentRecord(id, ownerId, created, updated, mediaType, size)
    }

    ghost predicate Valid()
      reads this
    {
      WellFormed(Record())
    }

    constructor FromRecord(r: FragmentRecord)
      ensures Record() == r
    {
      id, ownerId, created, updated, mediaType, size := r.id, r.ownerId, r.created, r.updated, r.mediaType, r.size;
    }

    /** `new Fragment(init)`: a new valid fragment, or the error the
        constructor throws. */
    static method Create(init: FragmentInit, newId: string, now: string) returns (r: Result<Fragment>)
      ensures r.Err? <==> Construct(init, newId, now).Err?
      ensures r.Err? ==> r.msg == Construct(init, newId, now).msg
      ensures r.Ok? ==> fresh(r.value) && r.value.Valid() && r.value.Record() == Construct(init, newId, now).value
    {
      var built := Construct(init, newId, now);
      if built.Err? {
        return Err(built.msg);
      }
      var fragment := new Fragment.FromRecord(built.value);
      return Ok(fragment);
    }

    /** `Fragment.byUser(ownerId, expand)`: never another owner's fragment. */
    static function ByUser(st: StoreState, ownerId: string, expand: bool): (l: Listing)
      ensures l.Ids? <==> !expand
      ensures l.Ids? ==> forall id :: id in l.ids <==> Key(ownerId, id) in st.metadata
      ensures l.Expanded? ==> forall r :: r in l.fragments <==>
        exists k :: k in st.metadata && k.ownerId == ownerId && st.metadata[k] == r
      ensures st.KeysMatch() && l.Expanded? ==> forall r :: r in l.fragments ==> r.ownerId == ownerId
    {
      st.ListFragments(ownerId, expand)
    }

    /** `Fragment.byId(ownerId, id)`: the stored record, or the error
        'Fragment does not exist'. */
    static function ById(st: StoreState, ownerId: string, id: string): (r: Result<FragmentRecord>)
      ensures r.Ok? <==> Key(ownerId, id) in st.metadata
      ensures r.Err? ==> r.msg == DoesNotExist
      ensures r.Ok? ==> r.value == st.metadata[Key(ownerId, id)]
      ensures r.Ok? && st.KeysMatch() ==> r.value.ownerId == ownerId && r.value.id == id
    {
      match st.ReadFragment(ownerId, id)
      case None => Err(DoesNotExist)
      case Some(r) => Ok(r)
    }

    /** `Fragment.delete(ownerId, id)`: one backend call. */
    static method Delete(store: Store, ownerId: string, id: string, backend: Backend) returns (failure: Option<string>)
      requires store.Valid()
      modifies store
      ensures store.Valid()
      ensures failure == backend.Failure(DeleteBoth)
      ensures store.State() == if failure.Some? then old(store.State()) else old(store.State()).DeleteFragment(ownerId, id)
    {
      failure := store.DeleteFragment(ownerId, id, backend);
    }

    /** `save()`: stamps `updated` first, then writes the record, so the
        stamp stays on the object even when the write throws. */
    method Save(store: Store, now: string, backend: Backend) returns (failure: Option<string>)
      requires store.Valid()
      modifies this, store
      ensures store.Valid()
      ensures Record() == old(Record()).(updated := now)
      ensures failure == backend.Failure(WriteMetadata)
      ensures store.State() == if failure.Some? then old(store.State()) else old(store.State()).WriteFragment(Record())
    {
      updated := now;
      failure := store.WriteFragment(Record(), backend);
    }

    /** `getData()`: the bytes stored for this fragment, if any. */
    function GetData(st: StoreState): (r: Option<Bytes>)
      reads this
      ensures r.Some? <==> Key(ownerId, id) in st.data
      ensures r.Some? ==> r.value == st.data[Key(ownerId, id)]
    {
      st.ReadFragmentData(ownerId, id)
    }

    /** `setData(data)`: a non-buffer throws before anything changes;
        otherwise `updated` and `size` are set on the object, then the
        bytes are written. The record in the backend is not rewritten. */
    method SetData(store: Store, body: Body, now: string, backend: Backend) returns (failure: Option<string>)
      requires store.Valid()
      modifies this, store
      ensures store.Valid()
      ensures !body.Buffer? ==> failure == Some(NotABuffer) && Record() == old(Record())
                                && store.State() == old(store.State())
      ensures body.Buffer? ==> Record() == old(Record()).(updated := now, size := |body.bytes|)
      ensures body.Buffer? ==> failure == backend.Failure(WriteData)
      ensures body.Buffer? ==>
                store.State() == (if failure.Some? then old(store.State())
                                  else old(store.State()).WriteFragmentData(ownerId, id, body.bytes))
      ensures old(Valid()) ==> Valid()
    {
      if !body.Buffer? {
        return Some(NotABuffer);
      }
      updated := now;
      size := |body.bytes|;
      failure := store.WriteFragmentData(ownerId, id, body.bytes, backend);
    }

    /** `mimeType`: the base type of the fragment's type; for a valid
        fragment always `text/plain`. */
    function MimeType(): (r: Result<string>)
      reads this
      ensures r.Ok? ==> MediaType.IsBaseType(r.value)
      ensures r.Err? ==> r.msg == MediaType.InvalidMediaType
      ensures Valid() ==> r == Ok("text/plain")
    {
      MediaType.Parse(mediaType)
    }

    /** `isText`: the base type is `text/plain`, which, with one valid
        type, is exactly when the type is supported. */
    function IsText(): (r: Result<bool>)
      reads this
      ensures r.Ok? <==> MimeType().Ok?
      ensures r == Ok(true) <==> IsSupportedType(mediaType) == Ok(true)
      ensures Valid() ==> r == Ok(true)
    {
      match MediaType.Parse(mediaType)
      case Err(m) => Err(m)
      case Ok(t) => Ok(t == "text/plain")
    }

    /** `formats`: every supported type, which for a valid fragment
        includes its own base type. */
    function Formats(): (f: seq<string>)
      reads this
      ensures forall t :: t in f ==> IsSupportedType(t) == Ok(true)
      ensures Valid() ==> MimeType().Ok? && MimeType().value in f
    {
      ValidTypesAreSupported();
      ValidTypes
    }
  }
}
