# Ledger transfer and blog counter hooks, modelled in Dafny

This project models two small state-transition components of an ORM exercise
repository, over abstract in-memory tables instead of a database.

* **Funds transfer** (`transferMoney`). One database transaction moves an
  amount from a source account to a destination account and appends a
  `Transaction{from, to, amount}` record. The steps run in the Go code's order:
  1. read the source;
  2. refuse when `source.Balance < amount`;
  3. write the debited source;
  4. re-read the destination inside the transaction, so it sees the debit;
  5. write the credited destination;
  6. insert the record;
  7. commit.

  Every error path rolls back. Balances are whole cents (`decimal(10,2)`), as
  `map<nat, int>`. The log is a `seq<TransactionRecord>`.
* **Blog counter hooks**. `Post.BeforeCreate` raises the author's `PostCount`
  before the post row is inserted. `Comment.AfterDelete` counts the comments
  left on the deleted comment's post and, when there are none, sets the post's
  `CommentStatus` to "无评论" ("no comments"). The ORM runs a create or a
  delete, hooks included, inside one transaction, so a hook error undoes the
  whole operation. The model makes the hook an explicit step of `CreatePost` and
  `DeleteComment`.

Modules:
* `Wrappers` holds `Result`.
* `UnitOfWork` models a transaction as a snapshot plus a working copy. Rollback
  makes the snapshot visible again and commit makes the working copy visible.
  A caller sees `Committed(state)` or `RolledBack(state, error)`.
* `LedgerStore` holds the two ledger tables and the sum of balances.
* `Transfer` models `transferMoney`.
* `Blog` models the users, posts and comments tables and the two hooks.

Driver failures are a parameter rather than hidden I/O. Each operation that
opens a transaction takes a set of the driver calls that fail if they are
reached. Only the first failing call that is reached has an effect. With the
empty set, everything the database accepts succeeds. The fault points are:
* `TransferMoney` (`Step`): begin, the source read, the debit, the
  destination read, the credit, the record insert, commit.
* `CreateUser` (`UserStep`): begin, the insert, commit.
* `CreatePost` (`CreateStep`): begin, the counter update in `BeforeCreate`,
  the insert, commit.
* `DeleteComment` (`DeleteStep`): begin, the row delete, the count and the
  status update in `AfterDelete`, commit.

The hooks run inside those transactions and take plain flags instead: one for
the `BeforeCreate` update, and two for the `AfterDelete` count and update.

Behaviour of the code that the model keeps:
* The code never checks the sign of `amount` (gormSqlTwo/gormSqlTwo.go:108),
  so the model accepts any integer amount.
  `Transfer.NegativeAmountOverdrawsDestination` shows the effect.
* `AfterDelete` uses the `PostID` of the comment value the caller passed to
  `Delete`, not the one in the deleted row. The model keeps this, so the hook
  is only as accurate as the caller's copy.
* A failed commit is returned without an explicit `Rollback` call. The model
  treats it like every other error: the database discards the uncommitted
  transaction.

## Model

| member | source | states |
|---|---|---|
| Transfer.TransferMoney | gormSqlTwo/gormSqlTwo.go:87-145 | A failed call leaves the ledger exactly as it was. The call commits iff no driver call fails, the source exists with `amount <= balance` (strict `<` refuses), and the destination exists. On commit: same account ids; the source loses and the destination gains exactly `amount` (a self-transfer leaves every balance unchanged); every other account is unchanged; exactly one record `{from, to, amount}` is appended after the unchanged earlier records. |
| Transfer.MissingSourceReportedFirst | gormSqlTwo/gormSqlTwo.go:100-111 | A missing source is reported as not-found before the funds check, whatever the amount and destination, and nothing changes. |
| Transfer.InsufficientFundsMasksDestination | gormSqlTwo/gormSqlTwo.go:107-124 | An underfunded source fails with insufficient funds before the destination is read, even when the destination does not exist. |
| Transfer.MissingDestinationRolledBack | gormSqlTwo/gormSqlTwo.go:113-124 | A missing destination is found only after the debit. The rollback undoes the debit, and the ledger equals its pre-call state. |
| Transfer.SelfTransfer | gormSqlTwo/gormSqlTwo.go:113-141 | `from == to` is not refused. The re-read destination sees the debit, so the balance ends unchanged, yet one record `{id, id, amount}` is appended. |
| Transfer.TransferConservesTotal | gormSqlTwo/gormSqlTwo.go:100-144 | The sum of all balances is the same after every call, committed or rolled back, for whole-cent amounts. |
| Transfer.ExactBalanceEmptiesSource | gormSqlTwo/gormSqlTwo.go:108-117 | The funds check is strict, so transferring the whole balance to another account succeeds and leaves the source at exactly 0. |
| Transfer.SourceNotOverdrawn | gormSqlTwo/gormSqlTwo.go:107-117 | After any commit the source balance is at least 0. The one exception is a self-transfer of a negative amount. |
| Transfer.NonNegativeBalancesPreserved | gormSqlTwo/gormSqlTwo.go:107-129 | For a non-negative amount, a ledger with no negative balance has none after any call. |
| Transfer.NegativeAmountOverdrawsDestination | gormSqlTwo/gormSqlTwo.go:107-129 | The amount is never checked for sign. Moving -100 between two empty accounts commits and leaves the destination at -100. |
| Transfer.FailureIsRepeatable | gormSqlTwo/gormSqlTwo.go:100-144 | Repeating a failed call on the state it left fails the same way, again with no effect. |
| Transfer.DemonstrationRun | gormSqlTwo/gormSqlTwo.go:38-83 | 500.00/300.00 plus a transfer of 100.00 gives 400.00/400.00 and one record. Transferring 500.00 back is refused with nothing changed. |
| Transfer.UnknownSourceScenario | gormSqlTwo/gormSqlTwo.go:100-105 | An extra scenario, not part of `Run`. After the first transfer, moving 50.00 from an unknown account fails as not-found and changes nothing. |
| LedgerStore.GetAccount | gormSqlTwo/gormSqlTwo.go:101-105 | A lookup by primary key finds a row iff the driver call succeeds and the id exists. The row carries that id and its stored balance. A storage fault is reported as such, and a missing id as not-found. |
| LedgerStore.SetBalance | gormSqlTwo/gormSqlTwo.go:114 | A balance update by primary key sets only that account's balance. It adds no account, leaves the log alone, and matches nothing when the id is missing. |
| LedgerStore.Append | gormSqlTwo/gormSqlTwo.go:132-141 | Inserting a record appends exactly that record after the unchanged earlier ones and leaves the balances alone. |
| LedgerStore.SetBalanceTotal | gormSqlTwo/gormSqlTwo.go:114-129 | Writing one balance moves the total by exactly the change to that account. A write to a missing row changes nothing. |
| Blog.CreateUser | gormAdvanced/Advancedone.go:40-52 | A user insert commits iff no driver call fails and the id, the `username` and the `email` are all unused (by exact string comparison). It adds exactly that row under its id and changes nothing else. A failure changes nothing. |
| Blog.NewUserStartsWithNoPosts | gormAdvanced/Advancedone.go:46 | A user created without a post count has `PostCount == 0`. |
| Blog.CreateUserKeepsPostCountsAccurate | gormAdvanced/Advancedone.go:46 | If every `PostCount` matches the user's number of posts and the foreign keys hold, adding a user whose count starts at 0 keeps every count matching. |
| Blog.CreateUserKeepsForeignKeys | gormAdvanced/Advancedone.go:40-52 | Inserting a user keeps every post's author and every comment's post and author present. |
| Blog.WithPostDefaults | gormAdvanced/Advancedone.go:60-61 | An inserted post never has an empty status. An empty status becomes the column default "有评论", a given one is kept, and no other field changes. |
| Blog.BeforeCreate | gormAdvanced/Advancedone.go:93-102 | The hook fails only when its update fails. Otherwise it raises only `PostCount` of user `p.UserID` by exactly 1. Other users, all other fields, and the posts and comments are unchanged. With no such user, nothing changes. |
| Blog.CreatePost | gormAdvanced/Advancedone.go:93-102 | Any failure, including a failing hook, leaves the store unchanged: no post and no counter change. A commit happens iff no call fails, the id is free and the author exists. On commit exactly the new post is added, with its defaults. The author's count, and only it, rises by 1. |
| Blog.NewPostStatus | gormAdvanced/Advancedone.go:61 | A post created without a status reads "有评论". An explicit status is kept. |
| Blog.CreatePostKeepsPostCountsAccurate | gormAdvanced/Advancedone.go:93-101 | If every user's `PostCount` equals the number of their posts, creating a post keeps that true. |
| Blog.CreatePostKeepsForeignKeys | gormAdvanced/Advancedone.go:55-70 | Every post's author, and every comment's post and author, still exists after creating a post, since the insert refuses an unknown author. |
| Blog.AfterDelete | gormAdvanced/Advancedone.go:105-124 | The hook fails iff the count fails, or no comment remains and the status update fails. If a comment on `c.PostID` remains, the store is unchanged. If none remains, that post gets "无评论" and no other post changes. Users and comments are never touched. |
| Blog.AfterDeleteIdempotent | gormAdvanced/Advancedone.go:113-121 | Running the hook again on its own result changes nothing. |
| Blog.DeleteComment | gormAdvanced/Advancedone.go:104-124 | Once the transaction has begun, a comment with no primary key is refused with nothing changed. The delete commits iff there is a primary key and no call that is reached fails. On commit exactly row `c.ID` is gone and users are unchanged. Posts are unchanged while a comment on `c.PostID` remains. Otherwise that post, and only it, reads "无评论". Any failure leaves the store unchanged. |
| Blog.DeletingLastCommentMarksPost | gormAdvanced/Advancedone.go:113-120 | Deleting the only comment of an existing post commits and marks the post "无评论". |
| Blog.DeleteCommentKeepsEmptyPostsMarked | gormAdvanced/Advancedone.go:105-121 | If every post without comments reads "无评论", deleting a comment keeps that true. This needs the caller's copy of the comment to name the post its stored row belongs to. |
| Blog.StaleCommentLeavesPostUnmarked | gormAdvanced/Advancedone.go:105-116 | The hook counts on the caller's `c.PostID`, not on the stored row. When the two differ, the stored row's post can lose its last comment and still read "有评论". |
| Blog.DeleteCommentKeepsForeignKeys | gormAdvanced/Advancedone.go:73-86 | Deleting a comment keeps every post's author, and every comment's post and author, present. |
| Blog.OperationsKeepWellKeyed | gormAdvanced/Advancedone.go:39-86 | Creating users or posts and deleting comments keep every row stored under its own primary key. |
| Blog.DemonstrationRun | gormAdvanced/Advancedone.go:381-452 | Bob starts with one post and accurate counts. A new post created without a status reads "有评论" and raises bob's count from 1 to 2, and the counts stay accurate. Deleting its only comment leaves no comments and marks the post "无评论". |
| Blog.NewPostBreaksEmptyPostsMarked | gormAdvanced/Advancedone.go:61 | "Every post without comments reads 无评论" is not a whole-store invariant. A newly created post has no comments yet reads "有评论". |

## Left out

- The deferred `recover` that rolls back on a panic (gormSqlTwo/gormSqlTwo.go:90-94): there is no panic in the model; a failing driver call is an explicit fault instead. In the code, `transferMoney` has an unnamed `error` result, so after the closure recovers and rolls back the function returns `nil`. A panic would reach `Run` as a successful transfer.
- Floating point: `Balance` and `Amount` are `float64` in the code and `decimal(10,2)` in the table. The model uses exact integer cents. Rounding between the two is not modelled. Amounts that are not whole cents are outside the model. For them conservation does not hold in the code: the debit (line 114) and the credit (line 126) are each rounded to cents, so the total can drift by a cent.
- The `decimal(10,2)` range: a write outside it is a database error. The model treats it only as the abstract fault of that write.
- Auto-increment ids of `transactions` rows: a record's position in the log identifies it. Ids handed out by a rolled-back insert are not modelled.
- Isolation and concurrent transfers: the model covers one call at a time. The code reads the balance with a plain `First` and then writes an absolute value, with no locking. Two concurrent transfers on one account can therefore lose an update under MySQL's default isolation level.
- `CreatedAt`/`UpdatedAt` timestamps, `varchar` length limits and the hooks' log messages.
- 64-bit overflow of `PostCount`: it is an unbounded integer here.
- Unique-index and foreign-key precedence: when an insert breaks several constraints at once, the model reports one in a fixed order: for users the id, then the username, then the email; for posts the id, then the author. The database may report a different one.
- Creating comments and deleting posts or users: these are plain ORM calls with no hook of their own.
- The `Run` functions, seeding, `AutoMigrate`, printing and `main.go` connection setup: these are I/O and reporting.
- The association queries (gormAdvanced/Advancedone.go:309-374) and the sqlx programs: their logic is SQL run by the database.
- `TableName` methods: constant table names.
- Blog.CreateUser: the unique indexes on `username` and `email` compare strings exactly here. The database compares under the column's collation, which may ignore letter case, and with some collations trailing spaces too. So "Alice" after "alice" commits in the model, while the database refuses it.
- Blog.CreateUser, Blog.CreatePost: the auto-increment value `next` is unconstrained. It may be 0 or an id already in use, which the database's counter never hands out. The model then stores id 0 or reports a duplicate id.
- Blog.DemonstrationRun: the demonstration's user lookup by name and its explicit status reset are replaced by a store built directly.
