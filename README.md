# Telephone directory, modelled in Dafny

A model of a small console telephone directory written in C (`td.c`). The
program keeps up to 100 contact records (name, phone number, e-mail address)
in a global array, in insertion order, with a counter of live records. It
validates each field before a record is built. It refuses a new record that
shares a name, a phone number or an e-mail address with a stored one. Delete
removes a record by shifting the later ones left. Update overwrites one record
in place. After every change the live records are written to the data file
`contacts.dat`, and the next run loads them back.

The project has three modules:

- `Contacts` (`contacts.dfy`): the `Contact` datatype and the program's
  constants (capacity 100, field widths 50, 11 and 50).
- `Validation` (`validation.dfy`): the name and phone validators as the
  character scans the C code runs, each proved equal to a plain statement of
  what a valid field is. The e-mail validator is built on models of `strchr`
  and `strrchr` and is proved equal to a search-free statement of the rule.
- `Store` (`store.dfy`): the class `Directory`, which holds the array (C
  `directory`), the counter (C `contactCount`) and the contents of the data
  file. Its methods change them in place as `addContact`, `deleteContact`,
  `updateContact`, `saveContactsToFile` and `loadContactsFromFile` do. Each
  method's contract gives the new live records as a function of the old ones
  and says what stays the same. Lemmas over plain record sequences state what
  these changes preserve.

Modelling choices:

- Text fields have type `Text`: the characters before the terminator, so no
  NUL character can occur in them and string equality is `strcmp` equality.
  `isalpha` and `isdigit` are the ASCII ranges of the "C" locale.
- The add and update commands re-prompt until each field validates. The model
  takes the resulting record as an argument and requires `ValidContact` of it:
  every field passes its validator and fits its `char` array.
- Whether `fopen` succeeds when saving is a `canOpen` argument. The data file
  is a value: missing, or a sequence of whole records.
- "No two records share a field" (`Distinct`) is not an invariant of the
  class. Add and delete preserve it, but update does not, because update does
  not run the duplicate check. Loading does not validate the file either, so
  `AllValid` is not a class invariant.
- Points where the model follows the code's exact behaviour:
  - Loading a missing file leaves the store as it is. The store is empty only
    because loading happens at start-up, on the zero-initialised globals.
  - Add refuses when `count >= MAX_CONTACTS`, which can only mean equality.
  - Delete and update on an empty store report "no contacts" before any index
    is read. This is a separate outcome, `NoContacts`, from `InvalidIndex`.

## Model

| member | source | states |
|---|---|---|
| `Validation.IsValidName` | td.c:23-29 | returns true iff the name is non-empty and every character is an ASCII letter or a space |
| `Validation.IsValidPhone` | td.c:32-38 | returns true iff the phone has exactly 10 characters, all ASCII decimal digits |
| `Validation.StrChr` | td.c:42 | finds the first occurrence of a character: it is there and none comes before it; no result means the character is absent |
| `Validation.StrRChr` | td.c:43 | finds the last occurrence of a character: it is there and none comes after it; no result means the character is absent |
| `Validation.IsValidEmail` | td.c:41-45 | true iff there is an '@' at a position > 0 with no '@' before it, and a later '.' with no '.' after it that is not the last character |
| `Validation.EmailShapeOfScans` | td.c:42-44 | the search-free e-mail rule holds exactly when strchr finds '@' and strrchr finds '.', with 0 < '@' position < '.' position < length - 1 |
| `Validation.EmailExamples` | td.c:41-45 | "a@b.c" and "a@b.c.d" are accepted; "@b.c", "ab.c", "a@b." and "a.b@c" are rejected |
| `Store.RemoveAt` | td.c:157-159 | removing position i leaves one record fewer: those before i in place, those after i moved one position left |
| `Store.Numbered` | td.c:134-137 | the listing has one line per record, in store order, numbered from 1 |
| `Store.Loaded` | td.c:59-64 | a missing file leaves the records as they were; otherwise the records are the file's first min(file records, 100) |
| `Store.Directory.Start` | td.c:226-227 | program start: the store is empty and then loads the data file, so it holds what `Loaded` gives for an empty store |
| `Store.Directory.IsDuplicateContact` | td.c:67-80 | the scan reports a duplicate iff some live record has the same name, the same phone or the same e-mail as the candidate |
| `Store.Directory.AddContact` | td.c:83-124 | a full store gives DirectoryFull and a duplicate gives DuplicateContact, leaving array, count and file unchanged; otherwise the record goes to slot count, the count grows by 1 (still at most 100), no other slot changes, and the file holds the new records when it can be opened |
| `Store.Directory.ViewContacts` | td.c:127-138 | the lines listed are the live records, in store order, numbered from 1 |
| `Store.Directory.DeleteContact` | td.c:141-163 | an empty store gives NoContacts and an index outside 1..count gives InvalidIndex, changing nothing; otherwise the live records are the old ones without record index-1, the others in order, the count drops by 1, the slots from the old last live one onward keep their old values, and the file is saved |
| `Store.Directory.UpdateContact` | td.c:166-212 | an empty store or an index outside 1..count changes nothing; otherwise exactly slot index-1 becomes the new validated record, the count and all other slots stay, and the file is saved |
| `Store.Directory.SaveContactsToFile` | td.c:48-56 | when the file opens it holds exactly the live records; when it does not, the file is unchanged |
| `Store.Directory.LoadContactsFromFile` | td.c:59-64 | the live records become `Loaded(file, old records)`: count = min(file records, 100); a missing file changes nothing; slots past the new count keep their values |
| `Store.Directory.Restart` | td.c:54-62 | a later run starts from the file this run left; when that file holds the live records, the next run has exactly the same records in the same order |
| `Store.FirstRun` | td.c:83-163 | with no data file, the store starts empty; adding a valid record succeeds; a record with the same phone is refused; deleting record 1 empties the store and the saved file |
| `Store.AppendKeepsDistinct` | td.c:116-121 | in a store without shared fields, appending a record keeps it that way iff the record duplicates none of the stored ones |
| `Store.RemoveAtKeepsDistinct` | td.c:157-160 | deleting a record keeps a store without shared fields that way |
| `Store.RemoveAtRemoves` | td.c:157-160 | in a store without shared fields the deleted record is no longer present, and the remaining multiset is the old one less that record |
| `Store.EditsKeepValid` | td.c:91-121 | if every stored record is valid, appending, deleting or overwriting with a valid record keeps every record valid |
| `Store.UpdateMayBreakDistinct` | td.c:177-210 | update can create a shared field: overwriting "Ann" with a valid record named "Bob" in a two-record store leaves two records named "Bob" |
| `Store.LoadAfterSave` | td.c:54-62 | loading a file saved from at most 100 records gives back exactly those records, in order |
| `Store.ListedNumberSelects` | td.c:134-155 | each number shown in the listing is in 1..count, and it picks out the record shown beside it |

## Left out

- The menu loop, `main`'s dispatch and `exit` (td.c:214-256): console control flow. Only the start-up load (td.c:227) is modelled, as `Store.Directory.Start`.
- The re-prompting `do … while` loops of add and update (td.c:91-113, td.c:186-208): they are driven by console input and need not terminate. The model requires `ValidContact` of the record they produce.
- The console messages, and reading the index with `scanf("%d")`. The index is an `int` argument.
- `fopen`, `fwrite`, `fread` and `fclose` at byte level. The file is modelled as a sequence of whole records. A trailing partial record, which `fread` ignores, cannot occur in this model. Short writes are not modelled; the code does not check them either. A failed `fopen` for reading is modelled as a missing file.
- The byte layout of a record (field widths, NUL padding, `sizeof(struct Contact)`). It depends on the compiler, and the bytes after each terminator are whatever the buffer held before.
- `scanf` buffer overflows. Fields are assumed to fit: name and e-mail shorter than 50 characters, phone exactly 10 digits.
- Locale-dependent `isalpha` and `isdigit`. Only the "C" locale's ASCII ranges are modelled.
- Update's in-place overwrite field by field while the user is prompted (td.c:186-208). The model replaces the record in one step. The intermediate states are never saved or read.
