# SupplytoU GIS front end: geometry codec and form logic

This project is a Dafny model of the logic in the SupplytoU GIS front end that can be stated as pure functions. Each part is taken out of the React component that holds it:

- **The geometry wire codec.** Map vertices are written as PostGIS extended WKT (`SRID=4326;POINT (lng lat)` and `SRID=4326;POLYGON ((lng lat, ...))`) and read back. The code has no shared codec. It is written out three times, and the copies differ:
  - the update-farm form always appends the first vertex and writes `POLYGON ((`;
  - the add-field form appends the first vertex only when the ring is open, and writes `POLYGON((` with no space;
  - `parseFarmArea` strips one fixed prefix literal, while the app's `parseLocation` and `parsePolygon` search for a marker.

  Each copy is its own function over `seq<char>`. Module `WireFormat` proves how they fit together and where they do not.
- **Coordinates.** A coordinate is its printed JavaScript number: a `Token` of the shape `-?D+(.D+)?(e[+-]D+)?`. For the text JavaScript prints for a finite number, `Number` and `parseFloat` give that number back, so the model reads a token as itself. Anything else reads as NaN, modelled as `None`. Under this shape a token never holds a space, comma or parenthesis. That is why splitting on `" "` and `", "` inverts joining.
- **The form and record transforms:**
  - loading a farm into the update form and merging the form back into the submitted record;
  - the produce-row handlers;
  - the add-field save handler, with its guard, payload and reset;
  - the app-level list updates: append after a POST, replace by id after a PUT.
- **The forgot-password form:** the email regex as a language, the submit handler, and the effect that clears the error.
- **The welcome page:** the greeting chosen from the hour, and the name fallback.

JavaScript behaviour is modelled in module `Strings`:
- `split` with a non-empty string separator;
- `join`;
- `indexOf`;
- `replace` with a string pattern, which replaces only the first occurrence;
- reading an array index that may be past the end, which gives `undefined`, modelled as `None`.

A call that throws `TypeError` is modelled as `Err(TypeError)`.

Files: `wrappers.dfy`, `strings.dfy`, `numbers.dfy`, `geometry.dfy`, `produce.dfy`, `update_farm.dfy`, `add_field.dfy`, `app.dfy`, `wire_format.dfy`, `forgot.dfy`, `welcome.dfy`.

The code does not validate geometry:
- The update-farm encoder appends the first vertex even to a closed ring. No encoder rejects rings with fewer than three points or coordinates out of range.
- The decoders throw only when their marker is missing. A non-numeric token gives NaN, not an error.
- `parsePolygon` returns however many pairs it finds, so a two-pair polygon decodes to two coordinates.

## Model

| member | source | states |
|---|---|---|
| UpdateFarm.ClosedPairs | src/Mapping/components/UpdateFarm.js:107-108 | There is always one pair more than there are vertices. For a non-empty ring the pairs are the `"lng lat"` pairs of the ring followed by its first vertex again. |
| UpdateFarm.ParseFarmArea | src/Mapping/components/UpdateFarm.js:126-133 | `parseFarmArea` never throws and always returns at least one coordinate, whatever the input. |
| UpdateFarm.ParseFarmAreaText | src/Mapping/components/UpdateFarm.js:126-133 | For pieces free of commas and `)`, joined with `", "` between the prefix and `))`, `parseFarmArea` decodes each piece with `Number`, in order. |
| UpdateFarm.ParseFarmAreaRoundTrip | src/Mapping/components/UpdateFarm.js:107-133 | Decoding an encoded non-empty ring gives each vertex as `[lat, lng]` in drawing order, then the first vertex again. |
| UpdateFarm.ClosedRingGainsDuplicate | src/Mapping/components/UpdateFarm.js:108 | An already-closed ring is closed a second time: the decoded list has n+1 entries and ends with the closing vertex twice. |
| UpdateFarm.EmptyRingDecodes | src/Mapping/components/UpdateFarm.js:107-133 | With no vertices the encoder writes `SRID=4326;POLYGON (())`. That decodes to one coordinate: longitude 0, and latitude `undefined` (modelled as `None`), because `Number` is mapped over the split pieces before the missing element is read. |
| UpdateFarm.Merge | src/Mapping/components/UpdateFarm.js:82-90 | The submitted record keeps the loaded farm's id and every field the form does not edit. Its six edited fields are exactly the form's values. |
| UpdateFarm.UneditedSubmitIsLoadedFarm | src/Mapping/components/UpdateFarm.js:46-51 | Loading a farm into the form and submitting without edits reproduces the loaded record exactly. |
| UpdateFarm.MergeDeterminesForm | src/Mapping/components/UpdateFarm.js:82-90 | Two forms merged into the same farm give the same record if and only if the forms are equal, so no edit is lost. |
| UpdateFarm.HandleFieldUpdate | src/Mapping/components/UpdateFarm.js:79-94 | The app is given the loaded farm's id and a record with that id. The record carries the form's fields and keeps the farm's other fields. |
| UpdateFarm.EditProduce | src/Mapping/components/UpdateFarm.js:73-77 | A produce edit changes only the produce list and keeps its length. For an index in range, the edited field holds the new value, the row's other field keeps its value, and every other row is unchanged. For an index out of range, the assignment throws and the form is unchanged. |
| UpdateFarm.HandleEdited | src/Mapping/components/UpdateFarm.js:104-114 | Only `farmArea` changes. With no polygon among the edited layers the form is unchanged; otherwise `farmArea` is the encoding of the last polygon. |
| UpdateFarm.HandleCreated | src/Mapping/components/UpdateFarm.js:116-124 | A created polygon replaces `farmArea` with its encoding. Any other layer leaves the form unchanged. |
| UpdateFarm.CreatedMatchesEdited | src/Mapping/components/UpdateFarm.js:104-124 | Creating a polygon, or editing it as the only layer, leaves the form in the same state. |
| ProduceList.ChangeProduce | src/Mapping/components/UpdateFarm.js:73-77 | The call succeeds if and only if the index names a row; otherwise the assignment throws. On success the length is kept, the field holds the value, the row's other field is kept, and every other row is unchanged. |
| ProduceList.ChangeToSameValue | src/Mapping/components/AddField.js:42-46 | Writing a field's current value back leaves the rows as they were. |
| ProduceList.ChangeThenRestore | src/Mapping/components/AddField.js:42-46 | Editing a field and then restoring its old value gives back the original rows. |
| ProduceList.AddThenEdit | src/Mapping/components/AddField.js:179 | Add Produce appends one blank row and keeps every existing row. The new row can then be filled in without touching the others. |
| AddField.ClosedPairs | src/Mapping/components/AddField.js:96-103 | There are n+1 pairs exactly when the ring is open, and n otherwise. The drawn pairs come first, unchanged. A non-empty output ends with its first pair. |
| AddField.ClosedPairsAreClosedRing | src/Mapping/components/AddField.js:101-103 | Comparing printed pairs is the same as comparing vertices, so the output is the printed vertex-level closure of the ring. |
| AddField.ClosureIdempotent | src/Mapping/components/AddField.js:101-105 | Closure is idempotent, and encoding a closed ring emits it unchanged. |
| AddField.HandleFieldAddition | src/Mapping/components/AddField.js:51-89 | No POST is sent if and only if `drawnCoordinates` or `farmArea` is empty; in that case the notification is the missing-area message. A sent payload carries `drawnCoordinates` as `farm_area` and `farmArea` as `area_acres`. After success every field except `farmArea` is reset and the modal opens. After failure only the notification changes. |
| AddField.HandleCreated | src/Mapping/components/AddField.js:92-107 | A layer type other than `"polygon"` leaves the state unchanged. A polygon replaces `drawnCoordinates` with its encoding. |
| AddField.NeverPosts | src/Mapping/components/AddField.js:51-59 | While `farmArea` is empty no event sets it, so over any sequence of events every save stops at the guard and nothing is posted. |
| AddField.InitialFormNeverPosts | src/Mapping/components/AddField.js:15-26 | From the initial form (`farmArea` is `''`), no sequence of user events ever sends a POST. |
| App.ParseLocation | src/App.js:91-94 | `parseLocation` throws if and only if the text has no `POINT (`. |
| App.ParsePolygon | src/App.js:96-102 | `parsePolygon` throws if and only if the text has no `POLYGON ((`. Otherwise it returns at least one coordinate. |
| App.AppendCreated | src/App.js:104-129 | After a successful POST the server record is appended at the end and all prior entries are kept in order. After a failed POST the list is unchanged. |
| App.ReplaceById | src/App.js:148 | The length is kept. Every entry with the id becomes the updated record, and every other entry is unchanged. |
| App.ReplaceAbsentId | src/App.js:148 | When no entry carries the id, replacing changes nothing. |
| App.ReplaceIdempotent | src/App.js:148 | Replacing twice with a record that carries the id gives the same list as replacing once. |
| App.ReplaceKeepsOthers | src/App.js:148 | The entries with other ids are exactly the same, in the same order, before and after the replacement. |
| App.UpdateFarms | src/App.js:145-152 | After a successful PUT, exactly the farms with the id are replaced. After an error the list is unchanged. |
| App.HandleUpdateLocation | src/App.js:131-143 | The same replacement is applied only when the response reports `ok`. |
| App.UneditedUpdateKeepsFarms | src/App.js:145-152 | Submitting a listed farm unedited and storing the result gives back the same list, when the farm's id is unique in the list. |
| WireFormat.EncodePoint | src/Mapping/components/AddLocation.test.js:263 | The point string `SRID=4326;POINT (lng lat)` reads back through `parseLocation` as exactly `[lat, lng]`. |
| WireFormat.ParseLocationText | src/App.js:91-94 | `parseLocation` decodes the text between `POINT (` and the next `)` as one `"lng lat"` pair, returned as `[lat, lng]`. |
| WireFormat.ParseLocationAfterPrefix | src/App.js:91-94 | `parseLocation` reads `[lat, lng]` from `POINT (lng lat)` after any prefix without a `P`, with or without `SRID=4326;`. |
| WireFormat.ParseLocationExample | src/Mapping/components/UpdateLocation.test.js:127 | The stored point `SRID=4326;POINT (8.88 9.99)` decodes to latitude 9.99 and longitude 8.88. |
| WireFormat.ParseLocationNeedsMarker | src/App.js:92 | Text without an opening parenthesis has no `POINT (` marker, and parsing it throws. |
| WireFormat.ParsePolygonText | src/App.js:96-102 | For pieces free of commas and parentheses, joined with `", "` between `POLYGON ((` and `))`, `parsePolygon` decodes each piece in order. |
| WireFormat.ParsePolygonAfterPrefix | src/App.js:96-102 | `parsePolygon` maps each `"lng lat"` pair to `[lat, lng]`, keeping count and order, after any prefix without a `P`. |
| WireFormat.ParsePolygonOfUpdateFarm | src/Mapping/components/UpdateFarm.js:107-109 | `parsePolygon` reads the update form's polygon back as the ring followed by its first vertex again. |
| WireFormat.ParsePolygonWithoutSrid | src/App.js:97 | A polygon without the `SRID=4326;` prefix decodes the same way. |
| WireFormat.ParsePolygonRejectsAddField | src/Mapping/components/AddField.js:105 | `parsePolygon` throws on every output of the add form, because `POLYGON((` lacks the space its marker needs. |
| WireFormat.StripAddFieldText | src/Mapping/components/UpdateFarm.js:127 | On the add form's output `parseFarmArea` does not find its prefix, so it strips only the closing `))`. |
| WireFormat.ParseFarmAreaAddFieldText | src/Mapping/components/UpdateFarm.js:126-133 | On the add form's text, `parseFarmArea` decodes the prefix glued to the first pair as one piece, then each remaining pair. |
| WireFormat.GluedPairDecodes | src/Mapping/components/UpdateFarm.js:128-130 | The leftover prefix glued to the first longitude reads as NaN. The first latitude still reads correctly. |
| Geometry.DecodeAllFormatted | src/Mapping/components/UpdateFarm.js:128-131 | Mapping each printed `"lng lat"` pair back through either `Number` or `parseFloat` gives every vertex as `[lat, lng]`, one for one and in order. |
| WireFormat.ParseFarmAreaOfAddField | src/Mapping/components/UpdateFarm.js:126-133 | `parseFarmArea` on the add form's output does not throw. It returns the first latitude with a NaN longitude, then the other vertices of the closed ring decoded exactly, in order. |
| Forgot.IsValidEmailMatchesRegex | src/Authentication/Forgot.js:19-22 | The check accepts a string if and only if it is `a@b.c` with `a`, `b` and `c` non-empty and free of white space and `@`. |
| Forgot.RegexIsValid | src/Authentication/Forgot.js:20 | Every string the regex matches has exactly one `@` and no white space. The `@` is not first, and a `.` after it is neither right after the `@` nor last. |
| Forgot.EmailExamples | src/Authentication/Forgot.js:20 | `@b.c`, `a@.c` and `a@b.` are rejected; `a@b.c.d` is accepted. |
| Forgot.ChangeEmail | src/Authentication/Forgot.js:15-17 | Any change of the email clears the error and keeps `success`. Setting the same value changes nothing. |
| Forgot.HandleSubmit | src/Authentication/Forgot.js:24-33 | An invalid email only sets the error message, leaving the email and `success` as they were. A valid email sets `success`, empties the field and clears the error. |
| Forgot.RunKeepsErrorCurrent | src/Authentication/Forgot.js:15-33 | Over any sequence of typing and submitting, a shown error is always the invalid-email message about the email still in the field. |
| Welcome.Greeting | src/WelcomePage.js:29-32 | "Good morning" if and only if the hour is below 12. "Good afternoon" if and only if the hour is 12 to 17. "Good evening" if and only if it is 18 or more. So each hour gets exactly one greeting. |
| Welcome.ShownName | src/WelcomePage.js:10-22 | The shown name is never empty. It is `first_name` when that is a non-empty string, and `User` otherwise, including after a failed request. |

## Left out

- React rendering, hooks and effects scheduling, `setTimeout` clearing of notifications, `navigate`, toasts, the modal's markup and `console.log`: UI plumbing with no computed result.
- Leaflet and its draw control: the model's input is the vertex list that `getLatLngs()[0]` returns, and `fitBounds` is not modelled.
- HTTP: every request's outcome is a parameter, such as `postSucceeds`, `putSucceeds`, `resOk` or the fetched user. The fetches that load the farm, the farmers list, the locations and the user are not modelled.
- The application root's mount effect, which loads locations, farms and farmers, is not modelled.
- AddField.HandleFieldAddition: the form is modelled with its `onAddField` callback supplied. The application root mounts it with a prop named `onAdd` (src/App.js:201). There the callback is undefined, and calling it after a successful POST throws into the failure branch. That wiring is not modelled.
- App.HandleUpdateLocation: the response object of the HTTP client has no `ok` field, so as written the list is never updated. The model takes `res.ok` as a parameter and states the intended rule for both values.
- Numbers.JsNumber and Numbers.ParseFloat: only printed finite numbers of the shape `-?D+(.D+)?(e[+-]D+)?` are read exactly, and `Number("")` is 0. Every other string reads as NaN. This includes strings the runtime would accept, such as hexadecimal, `Infinity`, a leading `+` or `.`, and surrounding white space. So does text that starts with a number, which `parseFloat` would accept. In the other direction, the token shape also admits text that is not the canonical printing of its value, such as `0.10` (which JavaScript reads as 0.1) or `1e+400` (which reads as Infinity). The model reads every token as itself, so it does not model that rounding or overflow. Coordinates printed from numbers are always canonical.
- Floating-point values themselves: a coordinate is its printed token. Printing a finite number and reading it back gives the same number, so the round-trip lemmas compare tokens.
- UpdateFarm.EditProduce and ProduceList.ChangeProduce: the handlers copy the list shallowly and then write into the shared row object, so the previous state's row changes as well. The model uses value semantics and does not track that aliasing.
- The location form components (adding and updating a location) are not part of this model. Their point string shape is taken from their tests.
- Checks the code does not make are not modelled: coordinate ranges, a minimum vertex count, typed geometry errors. Neither are the label and region choice tables.
- Welcome.ShownName: a `first_name` that is not a string is not modelled. The user fetch yields an optional string.
