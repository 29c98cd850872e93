# bibtex2dict2csv, modelled in Dafny

The repository is a two-stage batch pipeline over BibTeX references.

- The **collector** (`bibtex2dict.py`) walks a path. It parses every `.bib`
  file under it into a dictionary from citation key to record, and unions
  those dictionaries. It merges the result over the previously pickled
  dictionary and writes the merged dictionary back.
- The **exporter** (`dict2csv.py`) reads the pickled dictionary. It turns
  every record into a seven-column row (Title, Year, Tags, Group, URL, Venue,
  Notes) and appends the rows to a CSV file.

The model has five modules:

- `Results` (`results.dfy`): the `Ok`/`Err` outcome that stands for a raised
  exception.
- `Stores` (`stores.dfy`): `Stored`, the outcome of unpickling the store both
  tools read: `Loaded(d)`, or `Absent` when unpickling failed.
- `OrderedDicts` (`ordered_dicts.dfy`): Python's insertion-ordered `dict`.
  `Dict` is a key order (a `seq` of distinct keys) together with a `map` over
  exactly those keys. `Assigned` is `d[k] = v`. `Updated` is `d.update(o)`,
  written as successive assignments in `o`'s order. `Merged` is an
  independent closed form of the same update, and the lemmas prove the two
  equal. `MutableDict` is a dictionary object that `Put` and `Update` change
  in place, with a loop.
- `Collector` (`collector.dfy`): the file system is a `Tree`. `File(path,
  parsed)` carries the dictionary the BibTeX parser produces for that file.
  `Dir(children)` lists its children in an explicit order, which stands for
  the order of `os.listdir`. `Other(path)` is a path that is neither a file
  nor a directory. `Load` is the specification of `load_bibtex`, and the
  method `LoadBibtex` implements it with the source's loop over a mutable
  dictionary. `Collected` and the method `Bibtex2Dict` are the
  load-fallback-and-merge body of `bibtex2dict`. The stored dictionary comes
  in as a `Stored`.
- `Exporter` (`exporter.dfy`): `Rows` is the specification of `dict2rows`,
  and `Dict2Rows` implements it with the source's loop, filling a fresh
  seven-cell array by index. `CsvFile` is the output file seen as a sequence
  of rows. `Dict2Csv` reads the store, projects it and appends the rows.

Two facts about the program shape the model:

- Python's `dict` keeps insertion order, and `dict2rows` emits rows in that
  order (dict2csv.py:31). So the model keeps the key order.
- A record without `title` or `year` raises `KeyError` inside `dict2rows`
  (dict2csv.py:34-35), before `dict2csv` opens the output file
  (dict2csv.py:63). So the whole export fails and nothing is appended.

## Model

| member | source | states |
|---|---|---|
| `OrderedDicts.Assigned` | bibtex2dict.py:67 | `d[k] = v` inside `update`: the value of `k` becomes `v`; an existing key keeps its position, a new key is appended |
| `OrderedDicts.UpdatedPrefix` | bibtex2dict.py:67 | `d` after assigning the first `n` keys of `o` one by one, in `o`'s order, as `dict.update` does |
| `OrderedDicts.Updated` | bibtex2dict.py:90 | `d.update(o)`: all keys of `o` assigned in `o`'s order |
| `OrderedDicts.UpdateIsMerged` | bibtex2dict.py:67 | `d.update(o)` equals the closed form: the keys of `d` in place, then the keys only `o` has in `o`'s order; entries `d` overridden by `o` |
| `OrderedDicts.UpdatedPrefixKeys` | bibtex2dict.py:67 | after assigning the first `n` keys of `o`, the key order is `d`'s order followed by the new keys among those `n`, in `o`'s order |
| `OrderedDicts.UpdatedPrefixEntries` | bibtex2dict.py:67 | after assigning the first `n` keys of `o`, the entries are `d`'s entries overridden by those `n` entries of `o` |
| `OrderedDicts.NewKeysMembers` | bibtex2dict.py:90 | a key is appended by the update exactly when the fresh dictionary has it and the stored one does not |
| `OrderedDicts.UpdateKeys` | bibtex2dict.py:90 | after the update the keys are exactly the stored keys together with the fresh keys |
| `OrderedDicts.UpdateTakesNew` | bibtex2dict.py:90 | every fresh key ends up with the fresh record, whole, with no field-level merge |
| `OrderedDicts.UpdateKeepsOld` | bibtex2dict.py:90 | for any two dictionaries: a key only the stored dictionary has keeps its record; stored keys keep their positions; new keys follow them in fresh order |
| `OrderedDicts.UpdateEmpty` | bibtex2dict.py:86-90 | updating `{}` with `o` gives `o`, order included |
| `OrderedDicts.UpdateIdempotent` | bibtex2dict.py:90 | updating twice with the same dictionary gives the same result as updating once |
| `OrderedDicts.MutableDict.constructor` | bibtex2dict.py:62 | a new dictionary object holds the given dictionary (`{}` or the unpickled store) |
| `OrderedDicts.MutableDict.Put` | bibtex2dict.py:67 | `self[k] = v` in place: the new value is `Assigned(old value, k, v)` |
| `OrderedDicts.MutableDict.Update` | bibtex2dict.py:67 | `self.update(o)` in place: the new value is `Updated(old value, o)` |
| `Collector.Customized` | bibtex2dict.py:55-58 | the parser's customization hook: same key order, every record replaced by its customized form |
| `Collector.Load` | bibtex2dict.py:48-68 | `load_bibtex`: a non-`.bib` file gives `{}`; a `.bib` file gives its customized entries; a directory updates `{}` with each child's dictionary in listing order; a path that is neither raises |
| `Collector.Collected` | bibtex2dict.py:82-90 | the merge body: a load error propagates; otherwise the stored dictionary (or `{}` when it cannot be read) updated with the loaded one |
| `Collector.NonBibSkipped` | bibtex2dict.py:51-53 | a directory child that is a file not ending in `.bib` leaves the accumulated dictionary unchanged, order included |
| `Collector.LoadKeys` | bibtex2dict.py:48-68 | loading fails exactly when a reachable path is neither file nor directory; otherwise the keys loaded are exactly the keys of the reachable `.bib` files |
| `Collector.LoadChildrenKeys` | bibtex2dict.py:62-67 | after the directory loop has handled `n` children: failure exactly when one of them holds such a path, otherwise exactly their `.bib` keys |
| `Collector.LoadChildrenErrSticks` | bibtex2dict.py:63-67 | once a child has raised, the directory's result is that error |
| `Collector.LaterChildWinsUpTo` | bibtex2dict.py:63-67 | after `n` children, a key that child `j` has and no later child among them has carries child `j`'s record |
| `Collector.LaterChildWins` | bibtex2dict.py:62-68 | on a key collision between children, the directory keeps the record of the last child in listing order |
| `Collector.LoadBibtex` | bibtex2dict.py:48-68 | the recursive walk with its in-place loop returns exactly `Load(t)` |
| `Collector.Bibtex2Dict` | bibtex2dict.py:74-94 | load the store (falling back to `{}`), load the input, update in place: the result is `Collected(stored, bib)` |
| `Collector.CollectedMerges` | bibtex2dict.py:89-90 | a run's keys are the stored keys plus the fresh keys; fresh records win whole; stored-only records and positions are kept; new keys follow in fresh order |
| `Collector.CollectedFromAbsent` | bibtex2dict.py:82-90 | when the store cannot be read, the result is the freshly loaded dictionary alone |
| `Collector.CollectedIdempotent` | bibtex2dict.py:89-90 | collecting the same input again over a run's result returns that result unchanged |
| `Collector.SkippedFileExample` | bibtex2dict.py:48-68 | a directory with `a.bib` and `notes.txt` and no store collects to the entries of `a.bib` alone |
| `Exporter.RowsUpTo` | dict2csv.py:30-41 | the rows for the first `n` records in iteration order, or the `KeyError` of the first record missing `title` (looked up first) or `year` |
| `Exporter.Rows` | dict2csv.py:24-42 | `dict2rows`: the rows for all records in iteration order, or the first `KeyError` |
| `Exporter.Exported` | dict2csv.py:48-62 | the outcome of `dict2csv`: an unreadable store is an error, otherwise `dict2rows` of the store |
| `Exporter.Dict2Rows` | dict2csv.py:24-42 | the loop that fills a fresh seven-cell row per record returns exactly `Rows(d)` |
| `Exporter.RowsErrSticks` | dict2csv.py:31-35 | once a record has raised `KeyError`, no later record is projected |
| `Exporter.RowsUpToFails` | dict2csv.py:31-35 | the first `n` records project exactly when each has a title and a year; otherwise the error names the first incomplete record, `title` before `year` |
| `Exporter.RowsSucceed` | dict2csv.py:34-35 | `dict2rows` succeeds exactly when every record has a title and a year |
| `Exporter.RowsUpToAt` | dict2csv.py:30-42 | there is one row per record in iteration order; row `i` has 7 cells: title, year, URL in columns 0, 1 and 4, empty elsewhere |
| `Exporter.RowsAt` | dict2csv.py:30-42 | `dict2rows` has one row per record, and row `i` is `[title, year, "", "", url, "", ""]` for record `i` |
| `Exporter.UrlResolution` | dict2csv.py:36-39 | column 4 of row `i` is record `i`'s `url` if present, else its `URL` if present, else empty; `url` wins when both are present |
| `Exporter.OneEntryExport` | dict2csv.py:24-42 | a store with one entry titled "Foo" from 2020 without URL exports as `["Foo", "2020", "", "", "", "", ""]` |
| `Exporter.CsvFile.constructor` | dict2csv.py:63 | an output file holds the rows it already had |
| `Exporter.CsvFile.WriteRows` | dict2csv.py:63-66 | writing rows leaves the old rows and appends the new ones after them, in order |
| `Exporter.Dict2Csv` | dict2csv.py:48-66 | an unreadable store or a missing field is an error and leaves the file unchanged; otherwise the file gains exactly `Rows(d)` at its end |

## Left out

- BibTeX parsing is not modelled. Each `.bib` file carries the dictionary the parser returns, and a parse error cannot arise.
- The four `bibtexparser.customization` steps are not modelled. `customizations` is an opaque record-to-record function that the model applies to every parsed record.
- `load_bibtex` defaults to no customizer. A caller models that by passing the identity function.
- Record field values are strings. The author and editor lists produced by customization are never read by the modelled code.
- Reading a `.bib` file (bibtex2dict.py:55), listing a directory (bibtex2dict.py:63) or following a directory symlink cycle can raise and abort the run, and the store is then not rewritten. The model has no such failure: `Load` and `LoadKeys` describe only the failure of a path that is neither a file nor a directory.
- `os.path.isfile`, `os.path.isdir` and `os.listdir` are replaced by the `Tree` datatype, and the listing order is its children's order.
- The informational message printed for a skipped file is not modelled.
- `create_directory` and its `errno` handling are not modelled. Both tools call it first (bibtex2dict.py:78-79, dict2csv.py:52-53), and any `OSError` other than `EEXIST` aborts the run there, before the store is read. Such a failure (for example an output path with no directory part) is not modelled: `Bibtex2Dict` and `Dict2Csv` can return `Ok` where the program raises.
- Pickle reading and writing are not modelled. The store comes in as `Stored`, any unpickling failure is `Absent`, and the dictionary written back is the collector's result. A pickle holding something other than a dictionary is not modelled.
- CSV quoting and escaping by `csv.writer` are not modelled. The file is a sequence of rows.
- The argparse `__main__` blocks are not modelled. They only read the command line.
