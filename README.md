# User cache of the fetch-with-users page

The page (`app.js`) keeps a client-side cache of a remote user directory. That
cache is two module variables: `users`, the ordered list of user objects the table
shows, and `editingUserId`, the id of the user loaded into the form, or `null` in
create mode. After each HTTP call the handlers reconcile the cache with the
server's answer:

- **load** replaces the list wholesale with the listing;
- **edit** finds a user by id and enters edit mode;
- **delete** filters out every user with the id, and leaves edit mode when that id
  was being edited;
- **update** merges the server's answer into the edited user. The merged user is
  built over the old user's keys, and each key takes `server[key] ?? old[key]`. It
  replaces the old user at the same position;
- **create** formats the server's answer over the first user's keys, each key
  taking `server[key] ?? ""`, and appends it.

After an update or create, the form leaves edit mode. A response that is not ok
makes the handler throw before it touches either variable.

This Dafny project models that cache and proves its reconciliation rules.

- `records.dfy` (module `Records`) models JavaScript objects through their own
  properties. A `Record` is a sequence of `Field`s in `for…in` order with no key
  twice. `Lookup` is `obj[key]` for an own property, and a key the object lacks
  reads as `undefined`. `SetField` is `obj[key] = value`. `Coalesce` is `??`, which
  falls back only on `null` and `undefined`. Keys that name `Object.prototype`
  members are outside the model (see "Left out").
- `reconcile.dfy` (module `Reconcile`) holds the pure rules and their lemmas.
  `Overlay(template, server)` is the object that both `for…in` loops build. An
  update is `Overlay(old, server)`. A create is `Overlay(Blank(users[0]), server)`:
  `Blank` keeps the keys and sets every value to `""`, so `x ?? ""` equals
  `x ?? blank[key]`. The module also has the two loops as methods (`MergeUser`,
  `FormatUser`), the `find`, `findIndex` and `filter` lookups, the predicate
  `UniqueIds` (which a delete keeps, an update keeps when the server sends no id or
  the same one, and a create can break), and the invariant that every row has the
  first row's columns.
- `user_store.dfy` (module `App`) holds the class `UserStore`, with fields `users`
  and `editingUserId`. Each handler is a method that takes `ok` for `resp.ok`, plus
  the parsed response body where the handler reads one. `Load`, `Delete` and
  `Submit` return the status message they show. `SelectForEdit` shows none and
  returns whether a cached user had the id. Three client methods replay an update,
  a create and a delete against the contracts.

Three behaviours of the code are easy to misread:

- **Update of an uncached id.** An update whose id no cached user has changes no
  user. `findIndex` returns -1, and `users[-1] = mergedUser` sets a property that is
  not an array element. "User updated." is still shown and edit mode is cleared
  (`App.UserStore.Submit`).
- **Ids are not kept unique.** Create never checks the server's id against the
  cache (`Reconcile.CreateMayRepeatId`). Delete removes every user with the id, not
  only the first one (`Reconcile.RemoveIdLength`).
- **Create on an empty cache.** `users[0]` is `undefined` and `for…in` over it does
  not iterate, so create appends `{}` (`Reconcile.CreatedKeys`).

## Model

| member | source | states |
|---|---|---|
| `Records.Lookup` | app.js:158 | `obj[key]` on own properties: the value of the first property with that key, `undefined` when there is none; its contract is stated by `Records.LookupAt` and `Records.LookupMissing` |
| `Records.LookupAt` | app.js:158 | in an object with distinct keys, reading the key of its i-th property gives that property's value |
| `Records.LookupMissing` | app.js:158 | reading a key the object does not have gives `undefined` |
| `Records.Coalesce` | app.js:158 | `a ?? b` is one of its operands; it differs from `a` only when `a` is `null`/`undefined`, and then it is `b`; `""`, `0` and `false` are kept; it is nullish only when both operands are |
| `Records.SetField` | app.js:158 | `obj[key] = v`: afterwards `key` reads `v` and every other key reads as before; an existing key keeps its position, a new key is appended; an object with distinct keys keeps them distinct |
| `Reconcile.Overlay` | app.js:156-159 | the object built from `{}` by assigning `out[key] = server[key] ?? template[key]` for each template key in order; its contract is stated by `Reconcile.OverlayAt` |
| `Reconcile.OverlayAt` | app.js:155-159 | the merged object has the template's length, and its i-th property is the template's i-th key with value `server[key] ?? template[key]` |
| `Reconcile.OverlayWellFormed` | app.js:156-159 | an object built by the `for…in` loop never holds a key twice |
| `Reconcile.OverlayKeys` | app.js:157-159 | the merged user has exactly the old user's keys, in the same order; keys that only the server sent are dropped |
| `Reconcile.OverlayLookup` | app.js:158 | a template key reads as the server's value when that value is neither `null` nor `undefined` (so `""`, `0` and `false` win), and otherwise as the old value; any other key is absent |
| `Reconcile.Blank` | app.js:182 | the template's keys in order, each with value `""`, so `server[key] ?? ""` is `server[key] ?? blank[key]` |
| `Reconcile.BlankFacts` | app.js:182 | a blanked object has distinct keys, and each template key reads as `""` in it |
| `Reconcile.FirstUser` | app.js:179 | `users[0]`, or `{}` when the cache is empty because `for…in` over `undefined` enumerates nothing; its effect on a create is stated by `Reconcile.CreatedKeys` |
| `Reconcile.CreatedKeys` | app.js:179-185 | the created user has exactly `users[0]`'s keys, in the same order, and no key at all when the cache is empty |
| `Reconcile.CreatedLookup` | app.js:182 | each template key of the created user reads as the server's value unless that is `null`/`undefined`, and then as `""`; keys that only the server sent are absent |
| `Reconcile.MergeUser` | app.js:155-159 | the update loop computes `Overlay(old user, server answer)` |
| `Reconcile.FormatUser` | app.js:179-183 | the create loop computes `Overlay(Blank(template), server answer)` |
| `Reconcile.IdOf` | app.js:95 | `item.id`: `undefined` when the user has no `id` property; for an object with distinct keys, the value of its `id` property |
| `Reconcile.HasId` | app.js:95 | `item.id === id`, strict equality with the number `id`: a user without an `id` property never matches |
| `Reconcile.FindIndex` | app.js:154 | `findIndex` returns -1 exactly when no user has the id; otherwise it returns the first index whose user has it |
| `Reconcile.FindById` | app.js:95 | `find` returns nothing exactly when no user has the id; otherwise it returns the first cached user with that id, the one at `findIndex` |
| `Reconcile.RemoveId` | app.js:112 | a user survives the filter exactly when it was cached and its id differs; the list does not grow |
| `Reconcile.RemoveIdConcat` | app.js:112 | filtering distributes over concatenation, so survivors keep their relative order |
| `Reconcile.RemoveIdAbsent` | app.js:112 | deleting an id that no user has leaves the list unchanged |
| `Reconcile.RemoveIdLength` | app.js:112 | the filter removes every user with the id: the length drops by the number of such users |
| `Reconcile.RemoveIdUniqueLength` | app.js:112 | with unique ids, the length drops by one when the id was cached and by zero otherwise |
| `Reconcile.RemoveIdKeepsUnique` | app.js:112 | a delete keeps ids unique |
| `Reconcile.UpdateKeepsUnique` | app.js:154-161 | an update keeps ids unique when the server's answer has no id or repeats the edited user's id |
| `Reconcile.CreateMayRepeatId` | app.js:179-185 | when `users[0]` has an `id` key and the server answers with an id already cached, the appended user breaks id uniqueness |
| `Reconcile.UpdateKeepsShape` | app.js:155-161 | if every row had the first row's keys before an update, the same holds after it |
| `Reconcile.CreateKeepsShape` | app.js:179-185 | if every row had the first row's keys before a create, the same holds after it, including on an empty cache |
| `Reconcile.DeleteKeepsShape` | app.js:112 | if every row had the first row's keys before a delete, the same holds after it |
| `App.MergeExample` | app.js:155-159 | an update in which the server echoes only the id and a new name: an old user `{id: 5, name: "old", email: "old@x.com", extra: "k"}` merged with the answer `{id: 5, name: "new"}` gives `{id: 5, name: "new", email: "old@x.com", extra: "k"}` |
| `App.FormatExample` | app.js:179-183 | a create answered with only a name and a new id: with first user `{id: 1, name, email}` and answer `{name: "X", id: 2}`, the created user is `{id: 2, name: "X", email: ""}`, in the template's key order |
| `App.UserStore.constructor` | app.js:5-6 | the page starts with no users, in create mode |
| `App.UserStore.Load` | app.js:14-33 | on success the listing replaces the cache wholesale; on failure the cache is unchanged; the edit target is untouched either way |
| `App.UserStore.SelectForEdit` | app.js:94-98 | the form edits `userId` exactly when a cached user has that id; otherwise the edit target is unchanged |
| `App.UserStore.Delete` | app.js:105-121 | on success, `users` is the filtered list, and the edit target is cleared exactly when it equalled the id; on failure nothing changes |
| `App.UserStore.Submit` | app.js:139-192 | on failure nothing changes. An update replaces the user at `findIndex` with the merged user, and no user changes when the index is -1. A create appends the formatted user, whose keys are exactly the first user's (none on an empty cache). Both leave edit mode |

## Left out

- HTTP: `fetch`, the verbs, URLs, headers, request bodies and `resp.json()`. Each handler receives `ok` and the parsed body as parameters.
- Keys that name `Object.prototype` members (`constructor`, `toString`, `hasOwnProperty`, `__proto__`, …). `Lookup` reads own properties only, so an inherited member such as `toString` reads as `undefined` in the model but as a function in JavaScript. Assigning `__proto__` calls the prototype setter rather than adding a property. For such keys `Reconcile.OverlayKeys`, `Reconcile.OverlayLookup`, `Reconcile.CreatedKeys` and `Reconcile.CreatedLookup` do not describe the page.
- JSON arrays inside a user. `Value` has no array case: the cache never reads inside a nested value, so an array would be carried as an `Obj`.
- Response bodies that are not objects. A `null` body would make `updatedUser[key]` throw. The model takes the body as a record.
- JavaScript numbers. Ids and numeric values are mathematical integers, and `Number(button.dataset.userId)` (including `NaN`) is not modelled.
- The stray array property that `users[-1] = mergedUser` creates. It is invisible to `find`, `filter` and the table, so the model keeps only the array elements.
- Key order of integer-like property names. JavaScript enumerates these first; the model takes each record's enumeration order as given, and the merged record follows the template's order.
- Rendering: `renderUsers`, the `JSON.stringify` of nested values in cells, `showMessage` beyond naming which message is shown, `console.error`, the `DOMContentLoaded` wiring, form resets and button labels.
- `App.UserStore.SelectForEdit`: does not model the form pre-fill with `user.name ?? ""` and `user.email ?? ""` (app.js:96-97), because that writes to DOM inputs.
- `App.UserStore.Load`: requires the listing's records to have distinct keys. That holds for any object that `resp.json()` produces.
- `async`/`await` and overlapping submissions. Each handler is one atomic step.
