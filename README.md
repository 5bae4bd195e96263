# Fragments: a Dafny model of the fragment store's core

The fragments service stores "fragments" for authenticated owners. A
fragment is a metadata record (`id`, `ownerId`, `created`, `updated`,
`type`, `size`) plus the raw bytes of its payload. Both are kept in a
storage backend under the key `(ownerId, id)`. This project models, in
Dafny, the parts of the service that decide what happens to fragments:

- the `Fragment` class (`src/model/fragment.js`): the constructor's checks,
  the supported-type test, the `mimeType`, `isText` and `formats` getters,
  and the calls that read and write the backend;
- the route handlers that change fragments: `createFragment` (POST),
  `updateFragmentData` (PUT) and `deleteFragment` (DELETE). It also models
  the list handler `getFragmentsList` (GET);
- `validateFragment`, the payload check against the declared type;
- the two `handleTypeConversion` functions;
- the two extension-to-type tables.

Each route handler is an imperative method over a `Store` object that
holds two maps: records and bytes. Each method is proved equal to a pure
function of the request and the old backend state (`CreateSpec`,
`UpdateSpec`, `DeleteSpec`). The properties are stated as lemmas about
those functions:

- the decision table of each handler;
- when it succeeds, in both directions;
- what a success writes, and that nothing else changes;
- what each failure leaves behind;
- that the backend stays consistent;
- how the routes compose: a created fragment is listed and can be
  updated; create then delete restores the backend; after a delete an
  update is 404.

The `Backend` value says which backend call, if any, throws during a
request. This makes the order of the two writes (record first, then
bytes) observable.

The model follows the code where the service's documented behaviour
differs from it:

- a successful DELETE answers 201;
- the only supported type is `text/plain`, so `formats` is `['text/plain']`
  for every fragment;
- POST neither validates the payload against its type nor refuses an empty
  body;
- POST stores the parsed base type, not the header as sent;
- a conversion table per native type does not exist in the code; the
  conversion functions decide by the target type alone (and, for HTML, the
  source type).

Modules, one per file:

- `Wrappers`: Option, Result, bytes.
- `MediaType`: the base type of a `Content-Type`.
- `Json`: a JSON text recognizer.
- `DataStore`: the backend.
- `FragmentModel`: the `Fragment` class.
- `Responses`: status codes, response bodies and the `Location` header.
- `TypeValidation`, `Conversions`, `ConversionTool`, `TypeMapping`,
  `ReducedMapping`.
- `PostRoute`, `PutRoute`, `DeleteRoute`, `ListRoute`.
- `Lifecycle`: how the routes compose.

## Model

| member | source | states |
|---|---|---|
| MediaType.Parse | src/model/fragment.js:124-127 | `contentType.parse(value).type`: a result is a lower-case `type/subtype` of token characters; anything else fails with `invalid media type` |
| MediaType.ParseRequest | src/routes/api/put.js:26 | parsing a request: a missing header fails with the library's own message; otherwise the header's value is parsed |
| MediaType.BaseTypeIsFixedPoint | src/model/fragment.js:146-156 | parsing returns its input unchanged exactly when the input is already a base type |
| MediaType.ParseIdempotent | src/model/fragment.js:124-127 | parsing a parsed base type again gives the same base type |
| MediaType.ParseIgnoresParameters | src/model/fragment.js:146-149 | anything after the first `;` never changes the base type |
| MediaType.ParseDropsCharset | src/model/fragment.js:119-123 | `text/html; charset=utf-8` has base type `text/html` |
| MediaType.BaseTypeOf | src/model/fragment.js:146-149 | any lower-case `token/token` is its own base type |
| MediaType.PlainTextIsBaseType | src/model/fragment.js:20 | `text/plain` parses to itself |
| MediaType.IndexOfIsFirst | src/model/fragment.js:124-127 | the split point of the header is the first `;`, or its end |
| MediaType.TrimStartDropsLeadingSpace | src/model/fragment.js:124-127 | trimming drops exactly the leading JS white space |
| MediaType.TrimEndDropsTrailingSpace | src/model/fragment.js:124-127 | trimming drops exactly the trailing JS white space |
| MediaType.LowerIsPointwise | src/model/fragment.js:124-127 | lower-casing keeps the length and maps each character |
| MediaType.LowerKeepsTypeSubtype | src/model/fragment.js:124-127 | a lower-cased `type/subtype` is still one, and has no upper-case letter |
| MediaType.TypeSubtypeIsPlain | src/model/fragment.js:146-149 | a `type/subtype` holds no `;` and no white space |
| Json.BlankIsNotJson | src/utils/types/typeValidation.js:8-13 | an empty or all-white-space payload is not a JSON text |
| Json.KeyValueObjectIsJson | src/utils/types/typeValidation.js:8-13 | `{"key":"value"}` is a JSON text |
| Json.UnquotedKeyIsNotJson | src/utils/types/typeValidation.js:8-13 | `{not json` is not a JSON text |
| Json.PlainStringRest | src/utils/types/typeValidation.js:8-13 | a string without quote, backslash or control character ends at its closing quote |
| DataStore.StoreState.ReadFragment | src/model/fragment.js:70-71 | `readFragment` finds the record exactly when one is filed under the key |
| DataStore.StoreState.ReadFragmentData | src/model/fragment.js:101-103 | `readFragmentData` finds the bytes exactly when some are filed under the key |
| DataStore.StoreState.WriteFragment | src/model/fragment.js:92-95 | `writeFragment`: the record is read back as written; every other key keeps its record; the bytes are untouched |
| DataStore.StoreState.WriteFragmentData | src/model/fragment.js:110-117 | `writeFragmentData`: the bytes are read back as written; every other key keeps its bytes; the records are untouched |
| DataStore.StoreState.DeleteFragment | src/model/fragment.js:84-86 | `deleteFragment`: record and bytes under the key are gone; every other fragment is kept |
| DataStore.StoreState.ListFragments | src/model/fragment.js:59-62 | `listFragments`: exactly the owner's ids, or with `expand` exactly the owner's records |
| DataStore.UnknownOwnerListsNothing | src/model/fragment.js:59-62 | an owner with nothing stored lists an empty collection, not an error |
| DataStore.WrittenFragmentIsListed | src/model/fragment.js:59-62 | a written record is listed for its owner, by id and expanded |
| DataStore.DeleteUndoesWrite | src/model/fragment.js:84-86 | deleting a fragment written under a fresh key restores the backend |
| DataStore.Store.WriteFragment | src/model/fragment.js:94 | the record write changes the backend exactly as `StoreState.WriteFragment`, or not at all when it throws |
| DataStore.Store.WriteFragmentData | src/model/fragment.js:116 | the bytes write changes the backend exactly as `StoreState.WriteFragmentData`, or not at all when it throws |
| DataStore.Store.DeleteFragment | src/model/fragment.js:85 | the delete changes the backend exactly as `StoreState.DeleteFragment`, or not at all when it throws |
| FragmentModel.IsSupportedType | src/model/fragment.js:151-156 | a value is supported exactly when its base type is `text/plain`; a value that is no media type throws |
| FragmentModel.ValidTypesAreSupported | src/model/fragment.js:20 | every listed valid type is supported |
| FragmentModel.BaseTypeIsSupportedExactlyWhen | src/model/fragment.js:151-156 | a base type is supported exactly when it is `text/plain` |
| FragmentModel.PlainTextWithParametersIsSupported | src/model/fragment.js:146-149 | `text/plain` with any parameters is supported |
| FragmentModel.Construct | src/model/fragment.js:23-51 | the constructor succeeds exactly when owner and type are set, the type is supported and the size is a non-negative number. Otherwise it throws the first failing check's message. A result keeps owner, type and size, and takes the fresh id and the current instant only where none was given |
| FragmentModel.ReconstructIsIdentity | src/model/fragment.js:23-51 | rebuilding a stored, well-formed record with the constructor gives the same record |
| FragmentModel.WriteKeepsConsistent | src/model/fragment.js:92-95 | writing a well-formed record keeps every stored record well-formed |
| FragmentModel.WriteBothKeepsValid | src/model/fragment.js:110-117 | writing a record and bytes of its size keeps the backend consistent, and keeps every size equal to its bytes' length |
| FragmentModel.Fragment.Create | src/model/fragment.js:23-51 | `new Fragment(init)` yields a new object holding the constructor's record, or its error |
| FragmentModel.Fragment.ByUser | src/model/fragment.js:59-62 | `byUser` lists ids unless `expand`; ids are exactly the owner's; expanded, the records are exactly those filed under the owner, and all belong to the owner |
| FragmentModel.Fragment.ById | src/model/fragment.js:70-76 | `byId` returns the record filed under owner and id, and throws `Fragment does not exist` exactly when there is none |
| FragmentModel.Fragment.Delete | src/model/fragment.js:84-86 | `delete` removes record and bytes, or changes nothing when the backend throws |
| FragmentModel.Fragment.Save | src/model/fragment.js:92-95 | `save` stamps `updated` on the object even when the write throws, then writes the stamped record |
| FragmentModel.Fragment.GetData | src/model/fragment.js:101-103 | `getData` returns the bytes stored under the fragment's key, if any |
| FragmentModel.Fragment.SetData | src/model/fragment.js:110-117 | `setData` of a non-buffer throws and changes nothing. Otherwise it sets `updated` and `size` on the object and writes only the bytes |
| FragmentModel.Fragment.MimeType | src/model/fragment.js:124-127 | `mimeType` is a base type, and for every fragment the constructor accepted it is `text/plain` |
| FragmentModel.Fragment.IsText | src/model/fragment.js:133-136 | `isText` is true exactly when the fragment's type is supported; it throws exactly when `mimeType` does |
| FragmentModel.Fragment.Formats | src/model/fragment.js:142-144 | every listed format is supported, and a valid fragment's own base type is listed |
| TypeValidation.ValidateFragment | src/utils/types/typeValidation.js:4-16 | only the exact type `application/json` is checked; it fails exactly when the payload is not a JSON text, with `Invalid JSON data, <message>` |
| TypeValidation.JsonWithParametersIsNotChecked | src/utils/types/typeValidation.js:5-6 | a JSON type that still carries parameters is accepted unchecked |
| TypeValidation.BlankJsonIsRejected | src/utils/types/typeValidation.js:8-13 | an empty or blank JSON payload is rejected |
| Conversions.ConvertTxtPlain | src/utils/types/conversions.js:18-20 | conversion to text decodes the payload itself |
| Conversions.ConvertHtml | src/utils/types/conversions.js:23-31 | markdown is rendered; any other source type returns nothing |
| Conversions.HandleTypeConversion | src/utils/types/conversions.js:4-15 | only `text/plain` and `text/html` targets succeed; others throw the not-supported message; a text target decodes the bytes; HTML from markdown renders them, from any other source returns nothing |
| Conversions.SourceMattersOnlyForHtml | src/utils/types/conversions.js:4-15 | for every target but HTML the source type does not change whether it succeeds, and a text result is the same |
| Conversions.ConversionKeepsPayload | src/utils/types/conversions.js:4-31 | whatever a conversion returns is a rendering of the payload itself |
| ConversionTool.HandleTypeConversion | src/utils/tools/handleTypeConversion.js:4-20 | succeeds exactly for a text target, or HTML from markdown; a text target decodes the bytes, HTML from markdown renders them; never returns nothing; throws the message of the failing branch |
| ConversionTool.AgreesWithUtilities | src/utils/tools/handleTypeConversion.js:8-14 | the two conversion functions agree except for a non-markdown source converted to HTML. There the utilities return nothing and the tool throws |
| TypeMapping.TypeOfExtension | src/utils/types/mapping.js:2-15 | an extension maps to a type exactly when it is listed, and to the type listed for it |
| TypeMapping.TableMapsToBaseTypes | src/utils/types/mapping.js:2-15 | the table lists twelve extensions, and each maps to a lower-case `type/subtype` without parameters |
| TypeMapping.YamlExtensionsShareAType | src/utils/types/mapping.js:8-9 | `.yaml` and `.yml` map to the same type |
| TypeMapping.JpegIsNotListed | src/utils/types/mapping.js:11 | only `.jpg` maps to `image/jpeg`; `.jpeg` is unknown |
| TypeMapping.CssHasCharsetButNoExtension | src/utils/types/mapping.js:17 | `text/css` carries a charset but no extension maps to it |
| ReducedMapping.IsRestrictionOfFullTable | src/utils/mappings/index.js:2-15 | the reduced table agrees with the full one, and maps only to supported types |
| ReducedMapping.OnlyText | src/utils/mappings/index.js:2-15 | only `.txt` is known to the reduced table |
| PostRoute.CreateFragment | src/routes/api/post.js:7-50 | the handler's answer, its `Location` and the new backend state are those of `CreateSpec` |
| PostRoute.CreateOutcome | src/routes/api/post.js:7-50 | a non-buffer body is 415. A bad or missing header, a missing owner or an unsupported type is 500. Otherwise the new record is written |
| PostRoute.CreateWritesMetadataThenData | src/routes/api/post.js:23-39 | the record is written before the bytes. A failing record write leaves the backend as it was; a failing bytes write leaves the record |
| PostRoute.SuccessfulCreateWrites | src/routes/api/post.js:23-39 | a successful create writes the new record, then the body, and answers with the record as stored |
| PostRoute.SuccessfulCreate | src/routes/api/post.js:17-39 | a success files the new record and the body under owner and fresh id, and changes no other key. It answers 201 with the record and points `Location` at the fresh id |
| PostRoute.CreateSucceedsExactlyWhen | src/routes/api/post.js:7-50 | a create succeeds exactly when the body is a buffer, the owner is set, `text/plain` is declared and neither write throws; only a success sets `Location` |
| PostRoute.FailedCreateIsReported | src/routes/api/post.js:40-49 | a failure is 415 for a non-buffer body and 500 otherwise. It changes nothing unless the bytes write threw |
| PostRoute.EmptyBodyIsAccepted | src/routes/api/post.js:12-21 | an empty body is stored as a fragment of size 0 |
| PostRoute.CreateIgnoresParameters | src/routes/api/post.js:14 | header parameters play no part in a create |
| PostRoute.CharsetIsNotStored | src/routes/api/post.js:14-21 | `text/plain; charset=…` is stored as `text/plain` |
| PostRoute.CreateKeepsBackendValid | src/routes/api/post.js:17-31 | a create keeps the backend consistent, and keeps sizes equal to byte lengths unless the bytes write throws |
| PutRoute.Caught | src/routes/api/put.js:75-85 | the handler's catch answers 404 or 500 |
| PutRoute.UpdateFragmentData | src/routes/api/put.js:8-86 | the handler's answer and the new backend state are those of `UpdateSpec`. On 201 `Location` names the stored fragment's id, and no other answer sets it |
| PutRoute.SaveUpdate | src/routes/api/put.js:57-74 | `save`, `setData`, then `byId`, each error caught |
| PutRoute.WritesMetadataThenData | src/routes/api/put.js:57-66 | the record is written before the bytes, each failure caught as it happens |
| PutRoute.UpdateOutcome | src/routes/api/put.js:8-86 | the checks in the handler's order: non-buffer 415, empty 400, bad header 500, unknown fragment 404, invalid JSON 415, type other than `text/plain` 400. Then the refreshed record and the body are written |
| PutRoute.BodyIsCheckedFirst | src/routes/api/put.js:14-23 | a non-buffer or empty body is refused whatever the backend holds |
| PutRoute.UnknownFragmentIsNotFound | src/routes/api/put.js:76-82 | updating a fragment the owner does not have is 404 and changes nothing |
| PutRoute.PayloadIsValidatedBeforeType | src/routes/api/put.js:40-55 | an invalid JSON payload declared as JSON is 415, not the 400 of a type change |
| PutRoute.TypeIsImmutable | src/routes/api/put.js:48-55 | a declared base type other than the fragment's is 400 and changes nothing |
| PutRoute.RefusedUpdateChangesNothing | src/routes/api/put.js:14-55 | an update refused before the writes is not 201 and leaves the backend as it was |
| PutRoute.AcceptedUpdateSaves | src/routes/api/put.js:32-63 | an update that passes every check writes the stored record with the new size and `updated` stamp |
| PutRoute.MetadataWriteFailureChangesNothing | src/routes/api/put.js:59 | a failing record write is reported and writes nothing |
| PutRoute.DataWriteFailureKeepsRecord | src/routes/api/put.js:59-63 | a failing bytes write is reported, and the refreshed record stays written |
| PutRoute.SuccessfulUpdate | src/routes/api/put.js:32-74 | a success replaces exactly this fragment's bytes, size and `updated` stamp, and keeps its id and type. It answers 201 with the record as stored |
| PutRoute.BackendFailureIsReported | src/routes/api/put.js:83-84 | a throwing backend write is answered with the error the handler catches |
| PutRoute.UpdateFailsUnlessAccepted | src/routes/api/put.js:8-86 | an update that fails any check, or whose writes throw, is not 201 |
| PutRoute.UpdateSucceedsExactlyWhen | src/routes/api/put.js:8-86 | an update succeeds exactly when the fragment exists, the body is a non-empty buffer, `text/plain` is declared and neither write throws |
| PutRoute.FailureChangesNothing | src/routes/api/put.js:8-86 | every failed update but a failing bytes write leaves the backend as it was |
| PutRoute.DataWriteFailureSplitsFragment | src/routes/api/put.js:57-63 | when the bytes write throws, the new size is stored beside the old bytes, and the fragment's size no longer matches its bytes |
| PutRoute.AcceptedUpdateKeepsBackendValid | src/routes/api/put.js:32-63 | an accepted update keeps the backend consistent, and keeps sizes equal to byte lengths unless the bytes write throws |
| PutRoute.UpdateKeepsBackendValid | src/routes/api/put.js:8-86 | every update keeps the backend consistent, and keeps sizes equal to byte lengths unless the bytes write throws |
| PutRoute.ParametersAreIgnored | src/routes/api/put.js:26-27 | header parameters, `charset` among them, play no part in an update |
| DeleteRoute.Caught | src/routes/api/delete.js:23-37 | the handler's catch: 404 exactly for a missing fragment, 500 `Internal Server Error` otherwise |
| DeleteRoute.DeleteFragment | src/routes/api/delete.js:6-38 | the handler's answer and the new backend state are those of `DeleteSpec` |
| DeleteRoute.DeleteOutcome | src/routes/api/delete.js:6-38 | an unknown fragment is 404. A throwing delete is caught. Otherwise record and bytes are removed and the answer is 201 |
| DeleteRoute.DeleteSucceedsExactlyWhen | src/routes/api/delete.js:6-38 | a delete succeeds exactly when the owner has the fragment and the backend does not throw |
| DeleteRoute.DeleteRemovesOnlyThatFragment | src/routes/api/delete.js:17-22 | a success removes exactly this owner's record and bytes for the id; a failure changes nothing |
| DeleteRoute.DeleteKeepsBackendValid | src/routes/api/delete.js:17 | a delete keeps the backend consistent, and keeps sizes equal to byte lengths |
| DeleteRoute.SecondDeleteIsNotFound | src/routes/api/delete.js:24-30 | deleting the same fragment again is 404 and changes nothing |
| ListRoute.GetFragmentsList | src/routes/api/get.js:6-33 | the answer is 200 with a listing. It is expanded exactly when `expand` is the string `1`. The ids are exactly the owner's, and expanded records are exactly the records stored under the owner |
| ListRoute.OnlyOneExpands | src/routes/api/get.js:11 | any other `expand` value, or none, lists ids |
| ListRoute.ListingIgnoresOtherOwners | src/routes/api/get.js:12-21 | another owner's writes do not change the listing |
| Lifecycle.CreatedFragmentIsListed | src/routes/api/get.js:11-21 | a created fragment is listed for its owner, by id and expanded |
| Lifecycle.NewRecordIsConsistent | src/routes/api/post.js:17-21 | the record a create stores is one the constructor accepts |
| Lifecycle.CreatedFragmentCanBeUpdated | src/routes/api/put.js:32-74 | a created fragment can be updated with a non-empty `text/plain` body: its bytes and size change and `created` stays |
| Lifecycle.CreateThenDeleteRestores | src/routes/api/delete.js:11-22 | creating under a fresh key and then deleting gives the backend back as it was |
| Lifecycle.DeletedFragmentIsNotFound | src/routes/api/put.js:76-82 | after a delete, updating the fragment is 404 |

## Left out

- HTTP wiring is not modelled: Express, the router mounts in `src/routes/index.js` and `src/routes/api/index.js`, authentication, logging and the server. The owner is a string argument.
- `src/response.js` is not part of this model. A response is a status plus a payload variant, and the envelope's JSON shape is not modelled.
- The storage backend itself is not part of this model. `src/model/data/index.js` chooses it by configuration, and the in-memory and cloud backends are not in it. `DataStore` states the contract the fragment model relies on, and reads never throw.
- `DataStore.Store.DeleteFragment` is one atomic call that either removes both the record and the bytes or throws. A backend that deletes one and then fails on the other is not modelled.
- Concurrency is not modelled: the interleaving of requests at `await` points is left out. Each handler runs to completion against one backend state.
- Stored records are values. Aliasing between an object and the backend's copy of it is not modelled.
- MediaType.Parse: the `content-type` package is modelled only by its base-type extraction. It splits at the first `;`, trims, requires `token/token` and lower-cases. The syntax of parameters is not validated, so a header with malformed parameters parses here but throws in the package; the contract is weaker than the package on that point.
- MediaType.Parse: for an empty string the package throws `argument string is required`, and the model fails with `invalid media type`. The routes never parse an empty string: a request's header is read from the request object, where an empty header fails with `invalid media type` as modelled, and the constructor refuses an empty type before it parses it. Only a direct `isSupportedType('')` would throw the other message.
- The `charset` that `updateFragmentData` computes is only logged, so it is not modelled.
- `JSON.parse` is modelled by an RFC 8259 recognizer over the payload's bytes. The text of its `SyntaxError` is an input string.
- markdown-it rendering and `Buffer.toString` are not modelled as functions. A conversion result names the rendering and carries the bytes it applies to.
- `randomUUID()` and `new Date()` are inputs: a fresh id, and one instant per call on the request's path (`Clock`).
- `FragmentModel.Construct`: `size` is an integer, a value of another JS type, or absent. Fractional numbers and `NaN` are not modelled. The constructor accepts `NaN`, because `NaN < 0` is false.
- The other GET routes (a fragment by id, its info, a conversion by extension) are not part of this model.
- The two extension tables are modelled as constants with the lemmas above. No code path in the core reads them.
