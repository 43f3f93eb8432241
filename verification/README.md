# Thread controller: response reconciliation and action ladders

This project models the core of `controller_thread`, the controller of the
Adapt framework's discussion-thread feature, and proves properties of the model.
The core has two parts.

- **The default view** (`view_default`). During a request, each action records
  its outcome under its own name as an array with a `status` field. The default
  view takes a running maximum over every recorded `status` that is present and
  numeric. A `status` field placed directly on the response mapping (the "flat"
  shape) takes part in the same maximum. The view sets that maximum as the HTTP
  status code only when it is greater than 0. It answers `[]` when nothing was
  recorded. Module `Response` in `response.dfy` models this.
- **The actions and their guards.** `permission_view_thread` and the three
  `permission_action_*` delegates are modelled. So are the unloaded guard of
  `view_thread` and the 400 → 404 → 200 ladders of `action_add_post`,
  `action_delete_post` and `action_delete_thread`. The ORM and the SQL builder are
  abstracted away. The thread model becomes a loaded flag and an id. The loadable
  posts become a map from id to record. Every write becomes an `Effect`, listed in
  the order it is issued. Each action is then a pure function that returns the
  recorded key, status and error text, its effects, and the controller's thread
  model once it has run. Module `Thread`
  in `thread.dfy` models this. `wrappers.dfy` holds `Option`.

Points where the model follows the code rather than a looser reading of it:

- The response mapping is a PHP array: its entries are ordered and no key occurs
  twice (`Response.DistinctKeys`). A value that is not an array has no `status`
  field in PHP, so it contributes to the flat check only, and only under the key
  `status`.
- The default view sets the content type only when the mapping is non-empty.
  `view_thread` sets it before its guard, so it sets it in both branches.
- `action_add_post` rejects the post with the PHP test `!$post || $post == ''`.
  That test also rejects the string `"0"`, not only a missing or empty field.
- When the parent is loaded but the thread model is not, `action_add_post`
  binds the post to the thread id the unloaded model reports. The model keeps
  this behaviour.
- A status is any numeric value, including 0 and negative ones. Such values take
  part in the maximum but never lead to a code being set.

## Model

| member | source | states |
|---|---|---|
| Response.ViewDefault | controllers/controller_thread.php:36-65 | An empty mapping yields body `[]` and sets neither a code nor a content type. A non-empty mapping yields its JSON with `application/json`. A code is set exactly when some candidate status is positive, and then it is a candidate and no candidate exceeds it. |
| Response.Highest | controllers/controller_thread.php:40-50 | The running maximum over nested statuses, followed by the flat status, is the maximum of 0 and every present, numeric status (`IsHighest`). |
| Response.FoldNested | controllers/controller_thread.php:40-45 | The loop over values never lowers the running value. It ends at or above every present nested status, and it ends at its start value or at one of those statuses. |
| Response.HighestIsTheMaximum | controllers/controller_thread.php:40-50 | A number is the maximum of 0 and all candidates if and only if it is what the loop computes, so the reference maximum and the loop agree in both directions. |
| Response.CodeDependsOnlyOnCandidates | controllers/controller_thread.php:40-55 | Two mappings with the same set of candidate statuses get the same code from the default view. |
| Response.InertEntryIsIgnored | controllers/controller_thread.php:42-50 | Adding or removing an entry whose status is absent or not numeric, nested or flat, does not change the code. |
| Response.ReorderingKeepsCode | controllers/controller_thread.php:41-55 | Two arrays with the same entries in a different order get the same code, so which of two equal statuses the loop keeps is unobservable. |
| Response.Lookup | controllers/controller_thread.php:48 | Reading `$response['status']` finds a value exactly when some entry has that key, and the value found belongs to such an entry. |
| Response.LookupFinds | controllers/controller_thread.php:48 | In an array with distinct keys, the value read under a key is the value of the entry that has the key. |
| Response.Respond | controllers/controller_thread.php:141 | Recording under a key that is already present keeps the array's length and leaves every other entry at its position. Recording under a new key appends the entry at the end. No entry appears except the recorded one. |
| Response.RespondReads | controllers/controller_thread.php:141 | After recording under a key, reading that key returns the recorded value, and every other key reads as before. |
| Response.RespondKeepsKeysDistinct | controllers/controller_thread.php:141 | Recording an outcome keeps the keys of the response mapping distinct. |
| Response.TailKeepsKeysDistinct | controllers/controller_thread.php:141 | Helper of `RespondKeepsKeysDistinct`: dropping the first entry of an array with distinct keys keeps the keys distinct. |
| Response.ConsKeepsKeysDistinct | controllers/controller_thread.php:141 | Helper of `RespondKeepsKeysDistinct`: putting an entry in front of an array that has distinct keys and lacks that entry's key keeps the keys distinct. |
| Thread.ActionsShareViewPermission | controllers/controller_thread.php:70-98 | The thread view is permitted exactly to a logged-in user who holds the thread permission. The three actions are permitted exactly when the view is. |
| Thread.Ladder | controllers/controller_thread.php:176-193 | The shared ladder: 400 exactly for a malformed request, 404 exactly for a well-formed request whose record is missing or foreign, and 200 otherwise. |
| Thread.ViewThread | controllers/controller_thread.php:104-131 | The view always uses the JSON content type. It answers `[]` exactly when no thread is loaded, and otherwise answers the thread's id with the post rows. |
| Thread.AddPost | controllers/controller_thread.php:137-168 | A missing, empty or `"0"` post records 400 with "No post data set", performs no writes and keeps the thread model. Otherwise the action records 200. It writes at most one thread creation, at most one parent spawn and exactly one post save, and nothing else. The save comes last and carries the request's text and the user's ids. It creates a thread, first, exactly when neither the parent nor the thread is loaded. The new thread then becomes the controller's model, assumed loaded with the id its save received, and the post is bound to it. Otherwise the model is kept and the post goes to its id. It spawns the parent for the post's thread exactly when the parent is not loaded. |
| Thread.DeletePostAction | controllers/controller_thread.php:173-194 | A missing or non-numeric `post_id` records 400. A post that is not loaded, an unloaded thread or a post of another thread records 404. The action records 200 only when the post is in the loaded thread, and only then deletes that one post. Each error records its text and performs no writes. The thread model is kept. |
| Thread.DeleteThreadAction | controllers/controller_thread.php:199-233 | A missing or non-numeric `thread_id` records 400. An unloaded thread or a different id records 404 with no writes. Otherwise the action records 200 after deleting the parent, soft-deleting the thread's posts and deleting the thread, in that order. The thread model is returned as it was. |
| Thread.ErrorsPerformNoWrites | controllers/controller_thread.php:137-233 | For every action and every input, the status is one of the ladder's codes, and it is not 200 exactly when no write was performed. |
| Thread.ActionsFollowLadder | controllers/controller_thread.php:137-233 | Each action's status is the ladder's answer for its own "malformed" and "missing or foreign" conditions. |
| Thread.RecordOutcome | controllers/controller_thread.php:167 | After an outcome is recorded, reading the action's key returns an array holding the outcome's status and error text. Every other key reads as before. |
| Thread.AddedPostCanBeDeleted | controllers/controller_thread.php:146-193 | After a successful `add_post` whose thread model ends up loaded, a `delete_post` of the saved post, run against the model `add_post` left, records 200 and deletes exactly that post. The post store is assumed to hold the saved post with its effect's thread id. |
| Thread.RecordedStatusIsSurfaced | controllers/controller_thread.php:36-55 | Right after an action records a positive status, the default view sets a code at least that high. |
| Thread.EarlierStatusSurvivesLaterRecord | controllers/controller_thread.php:36-55 | A positive status recorded by one action still bounds the code from below after another action records its outcome under a different name, so a 404 is not hidden by a later 200. A later outcome under the same name replaces the earlier one, as PHP array assignment does. |
| Thread.SingleOutcomeSetsItsStatus | controllers/controller_thread.php:36-55 | When one action's outcome is the only entry, the default view sets exactly that action's status. |

## Left out

- SQL builder queries (the post select of `view_thread` and the soft-delete
  update of `action_delete_thread`): they are calls into the framework's SQL
  library. The update is the abstract effect `SoftDeletePosts`, and the rows of
  the select are a parameter of `ViewThread`.
- ORM persistence (`save`, `delete`, `to_hash`, loading a record by id) and the
  constructor's loading of the thread model: these belong to the framework's model
  layer. They become the `ThreadModel` flag and id, the map of loadable posts, the
  id a newly saved thread receives, and the `Effect` list.
- `respond` is defined by the framework's base controller, which is not part of
  this model. `Response.Respond` assumes that it stores the array under the
  action's name, as PHP array assignment does.
- `json_encode`: the body of a non-empty response is the mapping it encodes. A
  recorded array keeps its `status` and `errors` fields. The thread and post
  hashes in the 200 answer of `action_add_post` are not modelled.
- AddPost: assumes the new thread's `save()` succeeds and leaves the model loaded
  with `freshId`. The source ignores the result of that save, and what a failed
  save does to the model's loaded flag and `thread_id` belongs to the model layer,
  so a failed save is not modelled.
- DeleteThreadAction: returns the thread model as it was before `delete()`. What
  the ORM's `delete` does to the model's loaded flag belongs to the model layer.
- `http_response_code` and the `content_type` field are returned as values
  instead of being set on global state.
- PHP `is_numeric` coercion: numeric strings are their integer value, and
  fractional or exponent forms such as `"4.5e2"` are not modelled. A status or id
  is `Option<int>`, with non-numeric values as None. PHP's loose `!=` between ids
  is integer comparison.
- Session and user internals: `has_permission` is membership in the user's
  permission set. What the framework does when a permission predicate is false
  is outside this controller.
- `spawn_parent` and `delete_parent` of the parent controller are the effects
  `SpawnParent` and `DeleteParent`; their own behaviour belongs to the parent.
