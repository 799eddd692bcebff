# Address search with login — a Dafny model

This project models the core of a small Streamlit tool for looking up
street addresses (`app_corrigido.py`). The tool does four things:

- It keeps a **user store**: a table of `(usuario, senha)` rows, where the
  password column holds a bcrypt digest. When the store is missing it is
  bootstrapped with one administrator, `Jonathan`, whose default password is
  `Jacare@92`. Users can be created, deleted and authenticated. A new name
  must not be taken already. The administrator cannot be deleted.
- It keeps an **access log**: an append-only table of `(usuario, datahora)`
  events, one per successful login.
- It has a **session gate**: two session fields, `autenticado` and `usuario`.
  A successful login sets both and logs one access. Logout clears both.
- It runs a **cascading address search** over a spreadsheet:
  - The city filter is an exact match.
  - The optional access-point (AT) and facility (FAC) filters each offer the
    wildcard `Todas`.
  - Each filter's candidates are the sorted distinct non-empty values of the
    rows that survived the previous step.
  - The result is shown through a fixed allow-list of columns, restricted to
    the columns the spreadsheet has.

The model has these files:

- `seqs.dfy` (module `Seqs`): `Filter`, the order-keeping selection that every
  mask and comprehension of the source performs, and what "subsequence" means.
- `crypto.dfy` (module `Crypto`): bcrypt seen from outside. A `Hasher` is a pair
  of hash and check functions. Its one assumed property, `Sound`, says that a
  password always checks against its own digest. The random salt is a parameter.
- `users.dfy` (module `Users`): the user table operations as functions, the
  `Store` class whose two fields stand for the two CSV files, and the lemmas.
- `session.dfy` (module `Gate`): the `Session` class with login and logout.
- `ordering.dfy` (module `Ordering`): Python's string order, and the sorted list
  of distinct values.
- `addresses.dfy` (module `Addresses`): the filter cascade as functions, the
  `Search` method that reassigns `df_filtrado` step by step, and the lemmas.
- `scenario.dfy` (module `Scenario`): a worked instance of the cascade.

Where the design description of the system and the code disagree, the model
follows the code:

- Deleting an unknown user succeeds, and the table is left as loaded. The
  design asks for a `NotFound` error.
- A missing user file is silently recreated with the default administrator.
  The design asks for a `StoreUnavailable` error.
- Every operation that reads the user file recreates it first. So a rejected
  creation or deletion, and a failed login, can still create the file. The
  contracts of `Store` state this.

## Model

| member | source | states |
|---|---|---|
| `Crypto.VerifyPassword` | app_corrigido.py:20-21 | under `Sound`, a typed password always verifies against any digest made from that same password |
| `Crypto.HashPassword` | app_corrigido.py:17-21 | under the bcrypt assumption `Sound`, a password always verifies against the digest made from it, whatever the salt |
| `Users.Registered` | app_corrigido.py:33 | a name is taken exactly when some row of the table carries it |
| `Users.Loaded` | app_corrigido.py:24-29 | a stored table is returned as it is; a missing one becomes the single administrator row, whose digest verifies the default password under `Sound` |
| `Users.Accepts` | app_corrigido.py:49-55 | an unregistered name is rejected; an accepted password verifies against the digest of some row carrying the name |
| `Users.Lookup` | app_corrigido.py:51-53 | finds no row exactly when no row has the name; otherwise it returns the position of a row with that name, and no earlier row has it |
| `Users.AcceptsFirstMatch` | app_corrigido.py:49-55 | authentication succeeds if and only if some row has the name, no earlier row has it, and the password checks against that row's digest; later duplicates are ignored |
| `Users.UnknownNameRejected` | app_corrigido.py:49-55 | a name that is not in the table is rejected whatever the password |
| `Users.Without` | app_corrigido.py:45 | removes exactly the rows with the name and keeps every other row; an absent name leaves the table unchanged |
| `Users.WithoutKeepsOthers` | app_corrigido.py:45 | deletion keeps the remaining rows in their original order (a subsequence), each as many times as before |
| `Users.RemovableNames` | app_corrigido.py:106 | the deletion panel offers exactly the registered names other than the administrator |
| `Users.BootstrapAdmitsAdmin` | app_corrigido.py:24-29 | the bootstrapped table holds exactly one row, the administrator's, with a digest of the default password; the administrator can log in with it; the table is well formed |
| `Users.AppendNewUser` | app_corrigido.py:35-39 | after a new name is appended, that name logs in with its password, and every other name authenticates exactly as before |
| `Users.AppendKeepsLookup` | app_corrigido.py:35-37 | after a row is appended, a name already present keeps its first match, the new name matches the new last row, and any other name stays unmatched |
| `Users.DeletedUserRejected` | app_corrigido.py:41-55 | after deletion the deleted name can no longer log in |
| `Users.AppendKeepsWellFormed` | app_corrigido.py:31-39 | appending a name that is not taken keeps the administrator first and all names unique |
| `Users.WithoutKeepsWellFormed` | app_corrigido.py:41-47 | deleting any name but the administrator keeps the administrator first and all names unique |
| `Users.FilterKeepsUnique` | app_corrigido.py:45 | removing rows from a table with unique names leaves the names unique |
| `Users.Store.LoadUsers` | app_corrigido.py:24-29 | an existing table is returned unchanged; a missing one is created holding only the administrator with a digest of the default password, and persisted |
| `Users.Store.SaveUser` | app_corrigido.py:31-39 | a taken name returns false and leaves the loaded table as it was; a new name returns true and appends exactly one row at the end, whose digest verifies the password; well-formedness is preserved |
| `Users.Store.DeleteUser` | app_corrigido.py:41-47 | `Jonathan` returns false and leaves the loaded table; any other name returns true and removes exactly its rows, even when it was absent |
| `Users.Store.Authenticate` | app_corrigido.py:49-55 | the result is the check of the password against the first row with the name, false when there is none; the table is only bootstrapped |
| `Users.Store.RecordAccess` | app_corrigido.py:57-63 | exactly one event `(name, time)` is appended at the end and every earlier event is kept |
| `Gate.Session.constructor` | app_corrigido.py:11-14 | a new session is logged out with an empty user name |
| `Gate.Session.ShowsAdminPanel` | app_corrigido.py:89 | the admin panel is shown only to a session logged in as the administrator |
| `Gate.Session.Login` | app_corrigido.py:75-83 | on success the session is authenticated as that user, it sees the admin panel exactly when that user is the administrator, and exactly one access is logged; on failure the session and the log are unchanged |
| `Gate.Session.Logout` | app_corrigido.py:124-127 | the session returns to logged out with an empty user name, and no longer sees the admin panel |
| `Gate.FirstLogin` | app_corrigido.py:76-79 | on a store with no user file, the administrator logs in with the default password, sees the admin panel, and exactly one access is logged |
| `Ordering.Less` | app_corrigido.py:140 | Python's `<` on strings (code-point lexicographic order) is irreflexive: no string is smaller than itself |
| `Ordering.LessTransitive` | app_corrigido.py:140 | Python's string order is transitive |
| `Ordering.LessTotal` | app_corrigido.py:140 | any two different strings are ordered one way or the other |
| `Ordering.InsertSorted` | app_corrigido.py:140 | inserting into a sorted distinct list keeps it sorted and distinct, and adds exactly the new value |
| `Ordering.SortedDistinct` | app_corrigido.py:140 | the result is strictly sorted and holds exactly the values of the input |
| `Ordering.StrictlySortedUnique` | app_corrigido.py:140 | two strictly sorted lists with the same values are equal, so `sorted(unique())` does not depend on how it is computed |
| `Ordering.StrictlySortedCard` | app_corrigido.py:143-144 | a strictly sorted list has no repeats: its length is its number of distinct values |
| `Addresses.Matching` | app_corrigido.py:141 | keeps exactly the rows whose cell equals the chosen value, each as many times as in the input, and no other row; empty cells match nothing |
| `Addresses.Present` | app_corrigido.py:143 | holds exactly the non-empty values of the column |
| `Addresses.Domain` | app_corrigido.py:143-145 | the filter's candidates are strictly sorted (hence distinct) and are exactly the non-empty values of the given rows |
| `Addresses.DomainEmpty` | app_corrigido.py:144 | the domain is empty exactly when every cell of the column is empty |
| `Addresses.Options` | app_corrigido.py:144-145 | no select box when the column has no value; otherwise `Todas` followed by the domain |
| `Addresses.Narrow` | app_corrigido.py:144-147 | choosing `Todas` leaves the rows unchanged, and so does a column with no value; otherwise the rows kept are exactly those with the chosen value, each as many times as in the input |
| `Addresses.NarrowIsSubsequence` | app_corrigido.py:146-153 | an optional step only drops rows and keeps the order of the rest |
| `Addresses.CascadeKeepsCity` | app_corrigido.py:140-153 | each step's result is a subsequence of the previous one and of the table, and every surviving row has the chosen city |
| `Addresses.DomainShrinks` | app_corrigido.py:149 | a subset of the rows offers only values offered by the rows, and no more of them |
| `Addresses.CascadeDomainsShrink` | app_corrigido.py:143-151 | the FAC candidates after the AT step are among those of the city, and no more numerous; the AT candidates of a city are no more than those of the whole table |
| `Addresses.DomainIgnoresOrder` | app_corrigido.py:143 | the candidates depend only on which rows there are, not on their order or repetition |
| `Addresses.DisplayedColumns` | app_corrigido.py:157-158 | holds exactly the allow-listed columns that the table has |
| `Addresses.DisplayedColumnsInOrder` | app_corrigido.py:157-158 | the displayed columns keep allow-list order |
| `Addresses.ProjectAll` | app_corrigido.py:159 | every row is projected, one for one and in order, onto the displayed columns |
| `Addresses.Project` | app_corrigido.py:159 | a displayed row holds exactly the displayed columns the row has, with the same cells |
| `Addresses.Refine` | app_corrigido.py:143-153 | one optional step yields the options `Options` describes and the rows `Narrow` describes |
| `Addresses.Search` | app_corrigido.py:140-161 | for a table whose rows only use its own columns, the three option lists are computed from the rows surviving the previous step; the outcome is "no results" when nothing survives, otherwise the displayed columns of the survivors; every shown row has the chosen city |
| `Scenario.ByCity` | app_corrigido.py:141 | on three Recife rows and one other, choosing Recife keeps the three, in order |
| `Scenario.ByAccessPoint` | app_corrigido.py:146-147 | choosing AT01 then keeps exactly the two rows on AT01 |
| `Scenario.FacilitiesOfAccessPoint` | app_corrigido.py:149-151 | the FAC options offered then are only the values of those two rows, sorted |

## Left out

- The Streamlit page: widgets, page configuration, `st.rerun`, `st.stop` and the success, error and warning messages. The selections of the select boxes are parameters of `Search` and `Login`.
- File I/O: reading and writing the CSV files and the spreadsheet, `os.path.exists` and `st.cache_data`. The two CSV files are the fields of `Users.Store`. The spreadsheet is a `Table` value.
- `Users.Store.SaveUser`: does not model pandas' missing-value tokens. `read_csv` reads a name such as `NA`, `N/A`, `n/a`, `NULL`, `null`, `nan`, `NaN`, `None`, `<NA>` or `#N/A` (and the empty name) back as NaN. Such a name is then never found by line 33, so creating it again returns true every time. The model treats every name as text, so it says the second creation is refused.
- `Users.Store.Authenticate`: for the same names, line 51 never matches NaN, so the source always rejects them. The model accepts their password.
- `Users.Store.DeleteUser`: for the same names, the deletion panel (line 106) offers NaN, and line 45 removes nothing, because NaN differs from itself. The model removes the rows.
- `Users.Store.RecordAccess`: an earlier event whose user is one of these names is read back as NaN and written out as an empty cell (lines 61-63). The model keeps every earlier event as it was.
- `Addresses.Search`: requires every cell of every row to lie in one of the table's columns (`RowsWithinColumns`). A pandas data frame always has this shape.
- An absent log file and an empty log are the same value here. The only difference in the source is the "no access recorded yet" notice.
- bcrypt internals (`gensalt`, `hashpw`, `checkpw`). The salt is a parameter. `checkpw` raises on a malformed stored digest, but `VerifyPassword` is total here. The design asks for false in that case.
- `datetime.now()` and its formatting: the formatted time is a parameter of `RecordAccess` and `Login`.
- Sorting the log for display (line 119): presentation only.
- The trimming and non-empty check of the admin form (line 96): `SaveUser` takes the name and password as given.
- Access control of the admin panel: `Session.ShowsAdminPanel` says who sees it, but the `Store` methods do not ask for a session.
- Loading the spreadsheet and stopping when it is missing (lines 129-138). `Search` requires the `CIDADE`, `AT` and `FAC` columns; without them pandas raises.
- Cell types: every non-empty cell is text. Numeric cells, and `sorted` failing on mixed types, are not modelled.
- Geocoding, rate limiting and the map: `app_corrigido.py` contains none of it.
- Failures of the log write are not caught by the source, so the model does not make logging best-effort.
