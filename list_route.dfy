/** `getFragmentsList`, the handler of `GET /v1/fragments`: lists the
    owner's fragments, as ids, or as whole records when the `expand` query
    parameter is exactly the string `1`. The query parameter is absent
    (`None`) or the string the query parser produced. */
module ListRoute {
  import opened Wrappers
  import opened DataStore
  import opened FragmentModel
  import opened Responses

  function GetFragmentsList(st: StoreState, ownerId: string, expand: Option<string>): (r: Response)
    ensures r.status == 200 && r.payload.ListBody?
    ensures r.payload.fragments.Expanded? <==> expand == Some("1")
    ensures r.payload.fragments.Ids? ==> forall id :: id in r.payload.fragments.ids <==> Key(ownerId, id) in st.metadata
    ensures r.payload.fragments.Expanded? ==> forall f :: f in r.payload.fragments.fragments <==>
              exists k :: k in st.metadata && k.ownerId == ownerId && st.metadata[k] == f
    ensures st.KeysMatch() && r.payload.fragments.Expanded? ==>
              forall f :: f in r.payload.fragments.fragments ==> f.ownerId == ownerId && f in st.metadata.Values
  {
    var expanded := Fragment.ByUser(st, ownerId, expand == Some("1"));
    Response(200, ListBody(expanded))
  }

  /** Only the exact string `1` expands: `true`, `yes` or `01` list ids. */
  lemma OnlyOneExpands(st: StoreState, ownerId: string, value: string)
    requires value != "1"
    ensures GetFragmentsList(st, ownerId, Some(value)).payload.fragments.Ids?
    ensures GetFragmentsList(st, ownerId, None).payload.fragments.Ids?
  {
  }

  /** Each owner sees only their own fragments: another owner's writes do
      not change the listing. */
  lemma ListingIgnoresOtherOwners(st: StoreState, ownerId: string, r: FragmentRecord, expand: Option<string>)
    requires r.ownerId != ownerId
    ensures GetFragmentsList(st.WriteFragment(r), ownerId, expand) == GetFragmentsList(st, ownerId, expand)
  {
    var st' := st.WriteFragment(r);
    var e := expand == Some("1");
    if e {
      assert st'.ListFragments(ownerId, e).fragments == st.ListFragments(ownerId, e).fragments by {
        forall f ensures f in st'.ListFragments(ownerId, e).fragments <==> f in st.ListFragments(ownerId, e).fragments {
          if f in st'.ListFragments(ownerId, e).fragments {
            var k :| k in st'.metadata && k.ownerId == ownerId && st'.metadata[k] == f;
            assert k in st.metadata && st.metadata[k] == f;
          }
          if f in st.ListFragments(ownerId, e).fragments {
            var k :| k in st.metadata && k.ownerId == ownerId && st.metadata[k] == f;
            assert k in st'.metadata && st'.metadata[k] == f;
          }
        }
      }
    } else {
      assert st'.ListFragments(ownerId, e).ids == st.ListFragments(ownerId, e).ids;
    }
  }
}
