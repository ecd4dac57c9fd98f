# yii2-simplechat core, modelled in Dafny

This project models two pieces of the yii2-simplechat module.

- **The conversation list query** (`db/ConversationQuery.php`). For one user U it reads the message table and keeps the messages U can still see. A message is visible when U received it and has not deleted it, or U sent it and has not deleted it. Each kept message gets a *contact*: the receiver when U is the sender, otherwise the sender. The rows are grouped by contact, with `MAX(id)` as the last message id. MySQL writes the contact with `IF`, PostgreSQL with `CASE`. `forUser` binds `:userId`.
  - Model: the pure function `ConversationQuery.Conversations` and lemmas about it.
  - `IsConversationView` states the query's promise on the messages alone. `ConversationsCharacterized` proves the result is the one and only map that meets it.
- **The module's class map** (`Module.php`).
  - `buildClassMap` merges the user's class definitions over the four default model classes (`array_merge`). It then qualifies each short name with the namespace that `getRoute` finds for it. `getRoute` throws for an unknown name.
  - `initContainer` derives, for each class-map entry: its short name (the part after the last `\`), its model class, and a `<Name>Query` registration for Message and Conversation.
  - Model: `getRoute`, `buildClassMap` and the derivations in `initContainer` are methods with loops, proved against specification functions (`ClassMapOf`, `QueryFactories`). Lemmas state the promised properties about those functions.

Files:

- `php.dfy` (module `Php`): the PHP runtime pieces the code relies on.
  - String-keyed arrays in insertion order (`Assoc`), with `$a[$k] = $v` as `Put` and `array_merge` as `Merge`.
  - `strrpos` as `LastIndexOf` and `substr` as `Substr`.
- `module.dfy` (module `SimpleChatModule`): `Module.php`.
- `conversation_query.dfy` (module `ConversationQuery`): `db/ConversationQuery.php`.

The query in `db/ConversationQuery.php` sets no `ORDER BY`, so the result is modelled as a map from contact to last message id, with no order. Each contact appears at most once by construction.

## Model

| member | source | states |
|---|---|---|
| ConversationQuery.Conversations | db/ConversationQuery.php:35-43 | The query's result for user U on a message table. `ConversationsCharacterized` proves it is the one map meeting `IsConversationView`. `SameMessagesSameView` and `OtherPartyFlagsIrrelevant` prove what it does not depend on. |
| ConversationQuery.ContactExpression | db/ConversationQuery.php:29-33 | The `contact_id` expression as each dialect writes it (`IF` for MySQL, `CASE` for PostgreSQL). `DialectsAgree` proves both equal `Contact`. |
| ConversationQuery.Contact | db/ConversationQuery.php:30-32 | The reference definition of the other party. `ContactIsOtherParty` proves it is the party who is not U. |
| ConversationQuery.Visible | db/ConversationQuery.php:39-42 | The OR filter on U's own side of a message. `VisibleOnlyOwnSide` proves only U's own flag is tested and strangers never see a message. |
| ConversationQuery.Where | db/ConversationQuery.php:39-42 | The rows the filter keeps, in table order. `WhereKeepsVisible` proves it keeps exactly the visible messages; `WhereAppend` proves it distributes over concatenation. |
| ConversationQuery.GroupByMax | db/ConversationQuery.php:35-43 | `GROUP BY contact_id` with `MAX(id)`. `GroupByMaxKeys` and `GroupByMaxIsMax` prove one group per contact, holding the largest id of that contact's rows. |
| ConversationQuery.DriverOf | db/ConversationQuery.php:29-33 | Only the driver names "mysql" and "pgsql" select a contact expression (MySQL and PostgreSQL respectively); every other driver name selects none. |
| ConversationQuery.SqlCaseFirstTrue | db/ConversationQuery.php:32 | A PostgreSQL `CASE` yields the value of its first true `WHEN`. |
| ConversationQuery.SqlCaseNoneTrue | db/ConversationQuery.php:32 | A `CASE` with no true `WHEN` yields its `ELSE` value. |
| ConversationQuery.DialectsAgree | db/ConversationQuery.php:29-33 | The MySQL `IF` expression and the PostgreSQL `CASE` expression both compute the contact (the receiver when U sent the message, otherwise the sender) for every message and user. |
| ConversationQuery.ContactIsOtherParty | db/ConversationQuery.php:30-32 | On a message between two different users that involves U, the contact is not U, and {contact, U} is exactly {sender, receiver}. |
| ConversationQuery.VisibleOnlyOwnSide | db/ConversationQuery.php:39-42 | A message U can see involves U. When U is not the sender, visibility is decided by the receiver side alone. When U is not the receiver, it is decided by the sender side alone. |
| ConversationQuery.WhereKeepsVisible | db/ConversationQuery.php:39-42 | The WHERE clause keeps a message if and only if it is in the table and visible to U. |
| ConversationQuery.WhereAppend | db/ConversationQuery.php:39-42 | Filtering a table made of two parts gives the filtered first part followed by the filtered second part. |
| ConversationQuery.Select | db/ConversationQuery.php:35-38 | Whatever the dialect, each selected row holds the contact of its message (the reference definition) and the message id. |
| ConversationQuery.GroupByMaxKeys | db/ConversationQuery.php:43 | Grouping by `contact_id` makes one group for each contact that occurs in the rows, and no other. |
| ConversationQuery.GroupByMaxIsMax | db/ConversationQuery.php:36 | A group's `MAX(id)` is the id of one of that contact's rows, and no row of that contact has a larger id. |
| ConversationQuery.ConversationsMeetSpec | db/ConversationQuery.php:35-43 | The query's result meets `IsConversationView`. A contact is listed exactly when some message visible to U has that contact. Its value is the id of such a message and is no smaller than the id of any other. |
| ConversationQuery.ConversationViewUnique | db/ConversationQuery.php:35-43 | At most one map meets `IsConversationView` for a given table and user. |
| ConversationQuery.ConversationsCharacterized | db/ConversationQuery.php:35-43 | The query returns a map if and only if that map meets `IsConversationView`. |
| ConversationQuery.ContactListedIff | db/ConversationQuery.php:39-43 | A contact is in U's result if and only if the table holds a message visible to U whose contact it is. |
| ConversationQuery.ContactGoneWhenAllHidden | db/ConversationQuery.php:39-43 | A contact all of whose messages U has deleted on U's side is absent from U's result. |
| ConversationQuery.SameMessagesSameView | db/ConversationQuery.php:29-43 | The result depends only on the set of messages and the user. Row order, repeated rows and the dialect make no difference. |
| ConversationQuery.UninvolvedMessageIgnored | db/ConversationQuery.php:39-42 | Adding a message U neither sent nor received leaves U's result unchanged. |
| ConversationQuery.OtherPartyFlagsIrrelevant | db/ConversationQuery.php:40-41 | Two tables that differ only in flags outside U's own side of each message give U the same result. |
| ConversationQuery.HiddenFrom | db/ConversationQuery.php:40-41 | After U deletes a message on U's side, U cannot see it. This changes nothing U's side shows exactly when U could not see the message before. |
| ConversationQuery.WhereHidden | db/ConversationQuery.php:39-42 | After message k is hidden from U, the WHERE clause keeps the same rows as on the table without message k. |
| ConversationQuery.HidingOneMessage | db/ConversationQuery.php:36-43 | Hiding message k from U gives U the result of the table with message k removed. |
| ConversationQuery.ConversationSurvivesHiding | db/ConversationQuery.php:36-43 | After message k is hidden from U, a contact with another message visible to U stays listed. Its value is the largest id among the visible messages that remain. |
| ConversationQuery.HidingIsOneSided | db/ConversationQuery.php:40-41 | Hiding a message from U changes no other user's result. |
| ConversationQuery.DialogueSender | db/ConversationQuery.php:35-43 | User 1 writes to user 2 (id 1) and user 2 answers (id 2): user 1's result is {2: 2}. |
| ConversationQuery.DialogueReceiver | db/ConversationQuery.php:35-43 | In the same dialogue, user 2's result is {1: 2}. |
| ConversationQuery.DialogueStranger | db/ConversationQuery.php:39-42 | A third user's result on that dialogue is empty. |
| ConversationQuery.DialogueAfterDeletion | db/ConversationQuery.php:36-43 | After user 1 deletes the answer, user 1's result is {2: 1}; user 2's is still {1: 2}. |
| ConversationQuery.Init | db/ConversationQuery.php:23-44 | `init` builds a query exactly for the MySQL and PostgreSQL drivers. The query has that driver's dialect and no parameters bound. |
| ConversationQuery.ForUser | db/ConversationQuery.php:51-54 | `forUser` binds `userId` to the given id and changes no other parameter and not the dialect. |
| ConversationQuery.ForUserFixesResult | db/ConversationQuery.php:51-54 | Before `forUser` the query cannot run (`:userId` is unbound). After it, the result is U's conversations. Binding again replaces the earlier user. |
| ConversationQuery.DriversAgree | db/ConversationQuery.php:29-33 | For the same table and user, a query on a MySQL connection and one on a PostgreSQL connection return the same result. |
| Php.Merge | Module.php:183 | `array_merge` with string keys, as a fold of assignments; its ensures keeps keys distinct. `MergeShape` and `MergeLayout` prove its layout. |
| Php.LastIndexOf | Module.php:128 | `strrpos` for one character. `LastIndexOfIsLast` proves it finds the last occurrence, or false when there is none. |
| Php.Substr | Module.php:128 | `substr($s, $start)` for a non-negative start. `ShortNameOfQualified` and `ShortNameWithoutNamespace` prove what it yields in `ShortName`. |
| Php.Put | Module.php:185 | `$a[$k] = $v`. An existing key keeps its position and takes the new value; the other entries are unchanged. A new key is appended at the end. Keys stay distinct. |
| Php.MergeShape | Module.php:183 | `array_merge($a, $b)` with string keys equals the entries of `$a` in order, each with `$b`'s value when `$b` has the key, followed by the entries of `$b` whose keys `$a` lacks, in `$b`'s order. |
| Php.MergeLayout | Module.php:183 | Position by position: the merge starts with `$a`'s keys (with `$b`'s values where given). Every later key is one `$a` lacks. There is a later entry exactly when `$b` has such a key, and the first later entry is the first such entry of `$b`. |
| Php.LastIndexOfIsLast | Module.php:128 | `strrpos` gives a position holding the character with none after it, and gives `false` only when the character does not occur. |
| SimpleChatModule.ClassMapOf | Module.php:165-188 | What `buildClassMap` returns, stated without its loop. `BuildClassMap` computes it; `ClassMapFailsOnUnknownName`, `DefaultClassMap`, `ClassMapKeys` and `ClassMapLookup` prove its failure and success cases. |
| SimpleChatModule.ShortName | Module.php:128 | `substr($class, strrpos($class, '\\') + 1)`. `ShortNameOfQualified` proves it inverts the qualification; `ShortNameWithoutNamespace` proves the case with no backslash. |
| SimpleChatModule.ModelClass | Module.php:127 | The model class of a definition: the name itself, or the `class` element of a configuration array. `ClassMapModelClasses` proves what it gives on a class map. |
| SimpleChatModule.DefaultsAreOwnClasses | Module.php:168-174 | Each default definition names the class at its own qualified name `bubasuma\simplechat\models\<Name>`. |
| SimpleChatModule.ClassMapModelClasses | Module.php:127 | On a class map `buildClassMap` returns, an unconfigured class is its own model class. A class the user configures by name has that name as its model class. |
| SimpleChatModule.QueryFactories | Module.php:131-137 | The query classes registered for a class map, in order. `PlanContainer` computes them; `QueryFactoriesOnlyForQueryNames` and `ClassMapQueryFactories` prove which entries get one. |
| SimpleChatModule.GetRoute | Module.php:199-207 | `getRoute` returns the first route whose name list contains the name. It throws "Unknown configuration class name '<name>'" exactly when no route contains it. |
| SimpleChatModule.BuildClassMap | Module.php:165-188 | `buildClassMap` returns the class map `ClassMapOf` describes. If the user's map has a key that is not a configurable class, it throws the unknown-name exception for the first such key. Otherwise it returns the qualified defaults with the user's definitions in place of the defaults. |
| SimpleChatModule.DefaultsWellFormed | Module.php:168-181 | The defaults name each of Message, Conversation, User and UserProfile once, in the order of the route's name list. |
| SimpleChatModule.ClassMapFailsOnUnknownName | Module.php:183-186 | Building the class map fails if and only if the user's map has a key outside Message, Conversation, User and UserProfile. The exception names such a key. |
| SimpleChatModule.DefaultClassMap | Module.php:168-187 | With an empty user map, the result is exactly the four entries `bubasuma\simplechat\models\<Name>` => `bubasuma\simplechat\models\<Name>`, in the order Message, Conversation, User, UserProfile. |
| SimpleChatModule.ClassMapKeys | Module.php:183-187 | On success, the keys are exactly the four qualified class names, in the order of the defaults, whatever order the user's map has. |
| SimpleChatModule.ClassMapLookup | Module.php:183-185 | A user definition for a configurable class is what the class map holds for that class. A class the user does not configure keeps its default definition. |
| SimpleChatModule.ClassMapShortNames | Module.php:128 | For every key `buildClassMap` produces, the short name taken after the last `\` is the configurable class name it was built from. |
| SimpleChatModule.ShortNameOfQualified | Module.php:128 | The short name of `<route>\<name>` is `<name>` when the name has no backslash. |
| SimpleChatModule.ShortNameWithoutNamespace | Module.php:128 | For a class name without a backslash, `strrpos` returns false, which `+ 1` turns into 1, so the short name drops the first character. |
| SimpleChatModule.PlanContainer | Module.php:124-138 | The loop records each entry's model class under the same key: `definition['class']` for a configuration array (None when it has none, see Left out), otherwise the class name itself. It registers the query classes `QueryFactories` describes, in order. |
| SimpleChatModule.QueryFactoriesOnlyForQueryNames | Module.php:131-137 | Every registered query class comes from an entry whose short name is Message or Conversation. It is named `<Name>Query` and is built by that entry's model class. |
| SimpleChatModule.NamesWithQueries | Module.php:131 | Of the four configurable classes, Message and Conversation get a query class; User and UserProfile do not. |
| SimpleChatModule.QueryFactoriesOfNames | Module.php:131-137 | Four entries whose short names are the configurable classes register exactly MessageQuery and ConversationQuery, in that order. |
| SimpleChatModule.ClassMapQueryFactories | Module.php:131-137 | For a class map `buildClassMap` returns, only the Message and Conversation entries get a query class, each built by that entry's model class. |

## Left out

- `Module::init`, `bootstrap` and `beforeAction` (Module.php:69-113, 212-221): database connection lookup, URL rules, renderer and console configuration. These are framework wiring with no logic of their own here.
- The container calls in `initContainer` (`$di->set`, `setSingleton`, `die($e)` on an exception). `PlanContainer` returns the values that would be registered (the model class map and the query classes). The registration itself and the closures calling `find()` are not modelled.
- `ContainerAwareTrait.php`: it only forwards to the global container.
- The SQL engine: query building, aliasing, parameter binding and execution. `Execute` gives the meaning of the built query. An unbound `:userId` is modelled as an error value, not as a database error.
- Drivers other than mysql and pgsql: the source leaves the contact expression unset for them, and `Init` then builds no query.
- Result order: the query has no `ORDER BY`, so results are maps.
- Message append, soft delete, marking read, access checks and identity lookup: none of them is in the modelled files. `HiddenFrom` only describes the table state after a message is deleted on one side, so that the query's behaviour on such states can be stated.
- SQL `NULL` ids or flags: ids are natural numbers and flags are booleans. Column widths are not modelled: ids are unbounded.
- Integer keys in the user's class map: PHP's `array_merge` renumbers them, and PHP 7's loose `in_array` lets `0` match any name. The model has string keys only.
- `Definition`: a configuration array is modelled as a map from strings to strings. Only its `class` element matters to the code modelled.
- `substr` with a start past the end: PHP 8 returns the empty string and PHP 7 `false`. The model returns the empty string; no class name produced by `buildClassMap` reaches this case.
- The exception's type and stack, and the `die($e)` handler, are not modelled: only the message.
- SimpleChatModule.ModelClass: for a configuration array without a `class` element, line 127 of Module.php raises an undefined-index notice (a warning in PHP 8). Yii's error handler turns it into an `ErrorException`, and module initialisation stops there. The model instead records None for that entry and carries on; it does not model that failure.
- SimpleChatModule.GetRoute: Module.php has no `use Exception;`, so `new Exception` on line 206 and the `catch` on line 153 name `bubasuma\simplechat\Exception`, a class none of the modelled files defines. The model assumes that class exists and carries the message. If it does not exist, PHP raises a class-not-found error instead of the "Unknown configuration class name" exception.
