# Craftr core, modelled in Dafny

This project models three parts of the Craftr build system and proves properties of them.

1. **The package-manifest layer** (`craftr/core/manifest.py`):
   - the package-name check;
   - the typed option coercers (`bool`, `triplet`, `string`) and how option values are looked up in a provider;
   - `Manifest.parse` on a decoded JSON document, with its schema and the `_aliases` table;
   - `UrlLoader.load` with its download, unpack and progress helpers.
2. **The module runtime** (`craftr/runtime.py`):
   - the `Session` with its namespaces, module caches, module loading, search and registration;
   - the `Module` with its locals, `read_identifier`, `_resolve`, `get`, `defined`, `setdefault`, `target`, `get_namespace` and `load_module` with preconditions;
   - the `Target` constructor;
   - the message of `NoSuchModule`.
3. **The string handling of the command line** (`craftr/__main__.py`):
   - module specs `name[:version]`;
   - version suffixes on module names;
   - configuration files flattened to `section.option` keys;
   - the `-d key[=value]` overrides;
   - target-name qualification.

## How the model is built

Pure code is written as functions over datatypes. Code that changes state in place is written as classes whose methods are proved equal to those functions:
- `Runtime.Session` and `Runtime.Module`;
- `UrlLoading.UrlLoader` and `UrlLoading.FileSystem`;
- `Cli.SessionOptions`.

Python objects shared by reference are stored in a datatype, `RuntimeStore.Store`:
- `DataEntity` objects and `Module` objects are kept in sequences and addressed by index;
- a namespace proxy is the value `NsProxy(name)`, which reaches whatever entity `namespaces[name]` holds when it is used.

Several helpers outside the core are parameters of the model (`ParseEnv`, `LoaderContext`, `Env`, and the `versionOk`/`criteriaOk` functions of `Cli`):
- `Version`, `VersionCriteria` and `pyutils.import_`;
- `utils.ident.validate` and `utils.path.normpath`;
- `fnmatch`, `get_opener`, `string.Template` expansion;
- the download and the archive extraction;
- the file tree the search walks.

The file system is a map from paths to nodes.

The specification functions return `Outcome(result, store)`. Their invariant is `Loading.Coherent`, which says the module caches agree with each other. Loading only ever grows the store (`Loading.Grows`).

## Model

| member | source | states |
|---|---|---|
| PackageName.Validate | craftr/core/manifest.py:72-84 | a name is accepted exactly when `^[A-z0-9][A-z0-9\.\-\_]*$` matches it (re.match, `$` also before one final newline) |
| PackageName.PatternLanguage | craftr/core/manifest.py:83-84 | the names the pattern accepts are a word of the two character classes, optionally followed by one newline |
| PackageName.DocumentedNamesPass | craftr/core/manifest.py:72-84 | every name of the documented grammar (letters, digits, `-`, `_`, `.`, starting with a letter or digit) passes |
| PackageName.ExtraAcceptedNames | craftr/core/manifest.py:83-84 | a name that passes but is not in the documented grammar holds one of `[ \ ] ^ _` or a backquote (the `A-z` range), starts with `_`, or ends in one newline |
| PackageName.OddNamesPass | craftr/core/manifest.py:83-84 | conversely, a word of the pattern's classes (optionally with one final newline) that ends in a newline, starts with `_` or holds one of `[ \ ] ^` or a backquote passes and is outside the documented grammar |
| PackageName.NameExamples | craftr/core/manifest.py:83-84 | "1bad name!" is refused; "valid.pkg-name_1", "a^b" and a name with a trailing newline pass |
| Options.Coerce | craftr/core/manifest.py:345-409 | calling an option converts its value according to the option's kind; a string option returns its argument |
| Options.BoolResults | craftr/core/manifest.py:361-373 | a bool option yields a bool or its default for every value and raises only for a str that is not an accepted word |
| Options.BoolIgnoresCaseAndPadding | craftr/core/manifest.py:363 | case and surrounding whitespace do not change what a bool option yields |
| Options.BoolTrueExamples | craftr/core/manifest.py:361-373 | "YES" and "1" give True |
| Options.BoolPaddedExample | craftr/core/manifest.py:361-373 | " true " gives True |
| Options.BoolFalseExamples | craftr/core/manifest.py:361-373 | "no" and "0" give False |
| Options.BoolCapitalisedExample | craftr/core/manifest.py:361-373 | "False" gives False |
| Options.BoolOtherExamples | craftr/core/manifest.py:361-373 | "" gives the default; "maybe" raises |
| Options.WordOf | craftr/core/manifest.py:363 | a padded, capitalised value is compared as its stripped lower-case word |
| Options.TripletExtendsBool | craftr/core/manifest.py:385-395 | a triplet option agrees with a bool option where that succeeds; where it fails exactly "null" and "none" give None |
| Options.TripletNoneIsFalse | craftr/core/manifest.py:385-395 | a triplet option turns None into False, because the bool conversion answers first |
| Options.Resolve | craftr/core/manifest.py:221-233 | the value stored for one option, and the error entry when the conversion raises |
| Options.QualifiedKeyWins | craftr/core/manifest.py:221-223 | `<package>.<option>` wins over the bare name, which is consulted only for an inheriting option whose qualified key is absent |
| Options.ResolveOutcomes | craftr/core/manifest.py:224-232 | a missing or None value gives the default without an error; a failed conversion gives the default and one error naming the option and raw value; otherwise the converted value |
| Options.ErrorsOnlyForStrings | craftr/core/manifest.py:361-395 | only bool and triplet options report errors, and only for str values |
| ManifestParse.Qualify | craftr/core/manifest.py:290-291 | an undotted type name is looked up in `_aliases`, a dotted one is imported |
| ManifestParse.ParseSpec | craftr/core/manifest.py:252-323 | `Manifest.parse` on a decoded document: schema, name, dependencies, options, loaders and the constructor, each failure as `InvalidManifest` or the exception that escapes |
| ManifestParse.ParseOptionOutcome | craftr/core/manifest.py:286-301 | one option entry is accepted exactly when its type resolves to an option class that accepts the arguments |
| ManifestParse.ParseLoaderOutcome | craftr/core/manifest.py:306-318 | one loader entry is accepted exactly when its type resolves to the loader class and the class accepts the arguments |
| ManifestParse.DependenciesAccepted | craftr/core/manifest.py:278-284 | the dependency loop succeeds exactly when every criteria string is accepted and keeps the entries in order |
| ManifestParse.OptionsAccepted | craftr/core/manifest.py:286-301 | the option loop succeeds exactly when every entry is acceptable and yields one option per key, in order |
| ManifestParse.OptionStepOutcome | craftr/core/manifest.py:287-301 | one pass of the option loop builds the option of that key or reports its error |
| ManifestParse.LoadersAccepted | craftr/core/manifest.py:304-318 | the loader loop succeeds exactly when every item is acceptable and yields one loader per item, in order, with its name |
| ManifestParse.LoaderStepOutcome | craftr/core/manifest.py:306-318 | one pass of the loader loop builds that loader or reports its error |
| ManifestParse.ParseAcceptsExactly | craftr/core/manifest.py:252-323 | parse returns a manifest exactly when every check passes |
| ManifestParse.ParseEarlyFailures | craftr/core/manifest.py:263-276 | a schema violation is reported first, then a name the pattern refuses |
| ManifestParse.ParseFirstBadDependency | craftr/core/manifest.py:278-284 | with schema and name in order, the error is that of the first dependency whose criteria do not parse |
| ManifestParse.ParseFirstBadOption | craftr/core/manifest.py:286-302 | with the dependencies in order too, the error is that of the first option that is not acceptable |
| ManifestParse.ParseFirstBadLoader | craftr/core/manifest.py:304-318 | with the options in order too, the error is that of the first loader that is not acceptable |
| ManifestParse.ParseLateFailures | craftr/core/manifest.py:320-323 | with every entry in order, the first field `Manifest.__init__` does not take is reported, and only then a version that does not parse |
| ManifestParse.ParsedEntriesInOrder | craftr/core/manifest.py:278-323 | a parsed manifest keeps one dependency, option and loader per declared one, in order |
| ManifestParse.DuplicateLoaderNeverReported | craftr/core/manifest.py:305-309 | the duplicate-loader check never fires: `taken_loader_names` is never added to |
| ManifestParse.DuplicateLoadersKept | craftr/core/manifest.py:304-318 | two loaders with the same name are both kept |
| ManifestParse.OptionShorthandUnreachable | craftr/core/manifest.py:176-185 | the schema requires option values to be objects, so the `str` shorthand at line 288 is never taken |
| ManifestParse.UntranslatedFailures | craftr/core/manifest.py:286-318 | an option without `type` raises `KeyError` and a loader without `urls` raises `TypeError`, neither turned into `InvalidManifest`; the option type "url" is refused with `InvalidManifest`, as it names no option class |
| ManifestParse.ParseDependencies | craftr/core/manifest.py:278-284 | the dependency loop computes what the specification function says |
| ManifestParse.ParseOptions | craftr/core/manifest.py:286-301 | the option loop computes what the specification function says |
| ManifestParse.ParseLoaders | craftr/core/manifest.py:304-318 | the loader loop computes what the specification function says |
| ManifestParse.AbstractBasesRefused | craftr/core/manifest.py:293-318 | `BaseOption` named as an option type is refused with `InvalidManifest` (its instantiation raises `TypeError`); `BaseLoader` named as a loader type raises `TypeError`, reported as a loader arguments error |
| ManifestParse.Parse | craftr/core/manifest.py:252-323 | `Manifest.parse` as a method returns what `ParseSpec` says |
| ManifestParse.NamespaceKeys | craftr/core/manifest.py:214-241 | the options namespace has one attribute per option key |
| ManifestParse.NamespaceValues | craftr/core/manifest.py:219-240 | each attribute holds the resolved value of that option |
| ManifestParse.OptionErrorsBound | craftr/core/manifest.py:228-231 | every error entry names an option whose raw value failed to convert, at most one per option |
| ManifestParse.ResolveOption | craftr/core/manifest.py:220-233 | one pass of the loop body: the provider's value, its conversion, the error entry |
| ManifestParse.GetOptionsNamespace | craftr/core/manifest.py:214-241 | the namespace's attributes and the errors list after the call |
| Json.GetFinds | craftr/core/manifest.py:281 | `dict.get(key)` finds the entry for the key, None exactly when no entry has it |
| Json.GetRemove | craftr/core/manifest.py:290 | after `pop(key)` the key is gone and every other key is looked up as before |
| Json.KeysWithinRemove | craftr/core/manifest.py:290-301 | the keys left after `pop` are allowed exactly when all keys are allowed or are the popped one |
| Json.Iterate | craftr/core/manifest.py:533 | iteration yields list items, dict keys or the characters of a str, and fails for anything else |
| Base.CollectOutcome | craftr/core/manifest.py:279-318 | a stop-at-first-failure loop succeeds exactly when every item converts and then yields the converted items in order |
| Base.CollectFirstFailure | craftr/core/manifest.py:279-318 | a failed loop reports the error of the first failing item |
| Archive.DropLast | craftr/core/manifest.py:613 | Python's `s[:-n]`, which is empty for n = 0 |
| Archive.UnpackInfo | craftr/core/manifest.py:611-615 | the recognised archive suffix, and the directory under `installdir` named after the archive without it |
| Archive.UnpackDirectoryName | craftr/core/manifest.py:611-615 | for a recognised suffix the directory is the install directory plus the archive's base name without the suffix |
| Archive.EmptySuffixUnpacksIntoInstallDir | craftr/core/manifest.py:612-614 | an empty suffix makes `[:-0]` empty the name, so the archive unpacks into the install directory itself |
| Archive.KeepMember | craftr/core/manifest.py:620-623 | a member is refused as soon as one exclude pattern matches it |
| Archive.CheckExtractFile | craftr/core/manifest.py:617-623 | a falsy exclude value keeps every member; otherwise the value is iterated as patterns |
| Archive.ExcludeListSemantics | craftr/core/manifest.py:617-623 | with a list of str patterns a member is kept exactly when no pattern matches it |
| Archive.ExtractProgressAsWritten | craftr/core/manifest.py:625-637 | the progress events per call, with the division by a zero count after the index |
| Archive.ExtractProgress | craftr/core/manifest.py:625-637 | the events with the progress of a one-member archive also ended |
| Archive.ExtractProgressAgrees | craftr/core/manifest.py:630-637 | the corrected events differ from the written ones only for the first member of a one-member archive |
| Archive.OneMemberLeftOpen | craftr/core/manifest.py:630-635 | as written, a one-member archive leaves its progress bar open |
| Archive.ExtractionBalancedAsWritten | craftr/core/manifest.py:625-637 | as written, an archive of two or more members gets a balanced progress log |
| Archive.ExtractionBalanced | craftr/core/manifest.py:625-637 | with the correction every non-empty archive gets a balanced progress log |
| Archive.Trunc | craftr/core/manifest.py:607 | `int(x)` truncates toward zero |
| Archive.DownloadProgress | craftr/core/manifest.py:589-609 | the first call raises `DownloadAlreadyExists` or begins a bar; each call updates; a completed download ends the bar |
| Archive.AlreadyExistsExactly | craftr/core/manifest.py:591-598 | the first call raises exactly when the unpack directory's stamp records the URL; later calls never do |
| Archive.PercentWithinBounds | craftr/core/manifest.py:605-607 | for a known size, the percentage shown is between 0 and 100 |
| UrlLoading.LoadSpec | craftr/core/manifest.py:521-587 | `UrlLoader.load`: the cache check, the scan of the templates, unpacking, the stamp file and the returned record |
| UrlLoading.CacheReuse | craftr/core/manifest.py:522-529 | a cache whose directory exists and whose template still expands to its URL is returned unchanged and nothing is written |
| UrlLoading.StampOk | craftr/core/manifest.py:583-585 | a successful stamp leaves the directory and a stamp holding the URL |
| UrlLoading.FinishStamps | craftr/core/manifest.py:570-586 | a successful load ends by stamping the found or unpacked directory |
| UrlLoading.SecondLoadReuses | craftr/core/manifest.py:521-587 | the returned record is a valid cache: loading again with it reuses the directory and changes nothing |
| UrlLoading.LoadLeavesValidCache | craftr/core/manifest.py:522-529 | after a successful load the returned record is a cache hit |
| UrlLoading.StampRecordsUrl | craftr/core/manifest.py:584-598 | the stamp records the URL found, and a later download of the same URL into the same directory sees it |
| UrlLoading.FirstDirectoryWins | craftr/core/manifest.py:535-566 | templates are tried in order: the first one naming a directory is used and stamped with its URL |
| UrlLoading.NoUrlMatched | craftr/core/manifest.py:578-579 | when every template is passed over, load raises `LoaderError(self, 'no URL matched')` and writes nothing |
| UrlLoading.AlreadyExistsDoesNotStop | craftr/core/manifest.py:556-562 | `DownloadAlreadyExists` does not stop the scan, so a later download leaves both a directory and an archive and the archive is never unpacked |
| UrlLoading.ScanTemplates | craftr/core/manifest.py:535-566 | the template loop computes what the scan function says |
| UrlLoading.Unpack | craftr/core/manifest.py:574-579 | extraction writes the members `check_extract_file` keeps, under their archive names, or reports the first fault |
| UrlLoading.UrlLoader.Load | craftr/core/manifest.py:521-587 | the loader's `directory`, the file system and the result after `load` are those of `LoadSpec` |
| UrlLoading.UrlLoader.Complete | craftr/core/manifest.py:574-587 | after the URL scan, unpacking, the directory check, the stamp and the result are as `Finish` says |
| Targets.SortSorts | craftr/runtime.py:668 | `sorted(kwargs.items())` holds the same items with their keys ascending |
| Targets.SortedUnique | craftr/runtime.py:668 | there is one key-ascending order of a dict's items, so `Sort` is what `sorted` returns |
| Targets.PrefixFirst | craftr/runtime.py:668 | in str order a proper prefix sorts first |
| Targets.MetaExact | craftr/runtime.py:661-666 | the meta dictionary holds exactly the `meta_<name>` arguments under `<name>`; a bare `meta_` is not meta data |
| Targets.NonMetaExact | craftr/runtime.py:661-666 | the meta loop keeps exactly the other arguments, in order |
| Targets.CommandComesFirst | craftr/runtime.py:668-673 | `command` comes before every `command<digit>` |
| Targets.CommandKeyExamples | craftr/runtime.py:669 | `^command\d?$` accepts `command`, `command7`, `command` with an Arabic-Indic or Devanagari digit and a key with one final newline; it refuses `commandx`, `command10`, two newlines and a superscript digit |
| Targets.AllCommandsInAnyOrder | craftr/runtime.py:668-673 | the command checks pass or fail the same in any order |
| Targets.CommandsOutcome | craftr/runtime.py:668-673 | the command loop succeeds exactly when every remaining argument is a list under `command` or `command<d>`, `d` any Unicode decimal digit (`\d`), and the commands are those lists in key order |
| Targets.FirstWrongKeyReported | craftr/runtime.py:668-670 | of several wrong arguments, the one whose key sorts first is reported |
| Targets.TargetOutcome | craftr/runtime.py:635-673 | the constructor fails on a duplicate `module`, missing inputs or outputs, an invalid name or a bad command (any key but `command` and `command<d>`, `d` a Unicode decimal digit), in that order; otherwise the target holds its arguments |
| Targets.NewTarget | craftr/runtime.py:635-673 | the constructor's meta loop and command loop (keys `command` and `command<d>`, `d` a Unicode decimal digit) give what `TargetSpec` says |
| ModuleHeader.LinesOfText | craftr/runtime.py:340-341 | the lines iterated make up the file, each non-empty, with a newline only at a line's end |
| ModuleHeader.HeaderLineMatches | craftr/runtime.py:346 | every declaration line `# craftr_module(<id>)` matches and yields its identifier |
| ModuleHeader.HeaderMatchIsHeaderLine | craftr/runtime.py:346 | every matching line is a declaration line for the identifier it yields |
| ModuleHeader.ScanCommentRun | craftr/runtime.py:341-348 | once a `#` line was seen, the scan runs to the end of the comment block and keeps its last declaration |
| ModuleHeader.ScanBlanks | craftr/runtime.py:341-343 | before any `#` line the scan skips blank lines, then reads the comment block or stops |
| ModuleHeader.DeclaredIdentifierIsLastInBlock | craftr/runtime.py:338-348 | the identifier found is the last declaration of the header comment block |
| ModuleHeader.ReadIdentifierSpec | craftr/runtime.py:328-355 | `read_identifier` gives the declared identifier when it is valid and `InvalidModule` otherwise |
| ModuleHeader.LastDeclarationMatches | craftr/runtime.py:338-348 | a header whose last declaration names an identifier is read as that identifier |
| ModuleHeader.ReadIdentifier | craftr/runtime.py:338-348 | the line loop with its `break` computes the declared identifier |
| RuntimeStore.PrefixGrows | craftr/runtime.py:101-104 | the namespace names along a dotted name grow strictly, so they are all different |
| RuntimeStore.LastPrefix | craftr/runtime.py:101-104 | the last namespace name along a dotted name is the whole name |
| RuntimeStore.GetNamespaceSpec | craftr/runtime.py:94-119 | `get_namespace` rejects an invalid name, otherwise creates and links the namespaces along the name and returns the proxy for the whole name |
| RuntimeStore.NsFromKeeps | craftr/runtime.py:101-117 | existing namespaces keep their entities and no entity changes its id |
| RuntimeStore.NsFromAdds | craftr/runtime.py:106-111 | afterwards every namespace along the name exists |
| RuntimeStore.NsFromFresh | craftr/runtime.py:106-111 | every new namespace lies along the name and has a fresh `ns:<name>` entity |
| RuntimeStore.NsFromStable | craftr/runtime.py:101-117 | once the namespaces along the name exist and are linked, the loop changes nothing |
| RuntimeStore.GetNamespaceCreates | craftr/runtime.py:94-119 | `get_namespace` creates every namespace along the name, keeps existing ones and returns the proxy for the whole name |
| RuntimeStore.GetNamespaceLinks | craftr/runtime.py:112-116 | each namespace along the name is reachable from its parent through the attribute named after its last part |
| RuntimeStore.GetNamespaceIdempotent | craftr/runtime.py:94-119 | asking for the same namespace again changes nothing |
| Loading.InitLocalsExposes | craftr/runtime.py:301-326 | each exposed function is bound in the new locals to itself |
| Loading.InitLocalsBinds | craftr/runtime.py:288-299 | the locals hold `__name__`, `__file__`, `G`, `session`, `module`, `self` and `project_dir`, and no exposed function hides them |
| Loading.RegisterSpec | craftr/runtime.py:69-92 | `_register_module`: nothing for an executed module; otherwise the identifier's namespace must be an `ns:` entity, whose public attributes move into the module's locals before it is registered and marked executed |
| Loading.RegisterKeeps | craftr/runtime.py:69-92 | registering keeps the caches coherent, and a registered module is the one registered under its identifier |
| Loading.RegisterOutcome | craftr/runtime.py:77-90 | a registered module owns its namespace and its locals hold the public attributes the namespace had |
| Loading.RegisterNeedsPlainNamespace | craftr/runtime.py:77-86 | registration fails exactly when the namespace entity is not an `ns:` entity |
| Loading.LoadModuleFileSpec | craftr/runtime.py:193-217 | `load_module_file`: the cached module of the file, or a new module refused on an identifier clash, cached and registered if asked |
| Loading.LoadModuleFileKeeps | craftr/runtime.py:193-217 | loading a file keeps the caches coherent; the module returned is cached for its file and identifier and registered when asked |
| Loading.LoadModuleFileCached | craftr/runtime.py:199-201 | a file already read is not read again |
| Loading.LoadModuleFileTwice | craftr/runtime.py:193-217 | loading the same file twice gives the same module |
| Loading.LoadModuleFileClash | craftr/runtime.py:204-208 | a new file declaring an identifier another file declared is refused, naming both files |
| Loading.ScanSpec | craftr/runtime.py:181-188 | the search loads every `Craftfile` and `*.craftr` file without registering, logs `InvalidModule` and stops at any other error |
| Loading.LoadModuleSpec | craftr/runtime.py:145-191 | `load_module`: a registered module, else a cached one registered if asked, else `NoSuchModule` without reload, else the search and a second lookup |
| Loading.LoadModuleKeeps | craftr/runtime.py:145-191 | loading keeps the caches coherent and returns a module declaring the requested identifier, registered when asked |
| Loading.LoadModuleStays | craftr/runtime.py:162-180 | an invalid name, a registered module, or an unknown module with reloading off leave the session unchanged; only the registered module is returned |
| Loading.RegisterFlagDroppedAfterSearch | craftr/runtime.py:178-191 | `register=False` only holds for a module already cached: one found by the search is registered anyway |
| Loading.NotFoundAfterSearch | craftr/runtime.py:181-191 | a module is reported missing exactly when the search cached no module of that identifier |
| Loading.NotFoundWithoutReload | craftr/runtime.py:165-179 | without a search, a module neither registered nor cached is missing |
| ModuleScope.MessageParses | craftr/runtime.py:694-703 | the `NoSuchModule` message can be read back into the name, the requiring module and the mode |
| ModuleScope.MessageInjective | craftr/runtime.py:694-703 | different errors give different messages, for names without quotes |
| ModuleScope.WalkConcat | craftr/runtime.py:583-586 | walking a dotted path is walking its first part and then the rest |
| ModuleScope.ResolvePlain | craftr/runtime.py:577-587 | a name without dots resolves to the module's locals and the name |
| ModuleScope.ResolveDotted | craftr/runtime.py:577-587 | `a.b.c` resolves to attribute `c` of what `a.b` names |
| ModuleScope.DefinedIffFound | craftr/runtime.py:453-464 | a name is defined exactly when `get` without a default finds it |
| ModuleScope.GetOutcome | craftr/runtime.py:501-518 | a defined name is returned whatever the default; an undefined one raises without a default; the globals are consulted only with a default and only for the module's own scope |
| ModuleScope.WalkKept | craftr/runtime.py:577-587 | a path that could be walked still leads to the same object after attributes are only added |
| ModuleScope.SetDefaultThenGet | craftr/runtime.py:466-499 | with `set_global` False, after `setdefault` the name is defined and `get` returns the value it returned |
| ModuleScope.SetDefaultKeepsExisting | craftr/runtime.py:482-486 | with `set_global` False, `setdefault` on a defined name returns its value and changes nothing |
| ModuleScope.SetDefaultGlobalKeepsExisting | craftr/runtime.py:482-498 | with `set_global` True, `setdefault` on a defined name returns its value and changes only that key of `G`; it fails when the locals have no `G` or `G` is not an object |
| ModuleScope.SetDefaultWritesGlobals | craftr/runtime.py:495-498 | with `set_global` True, `setdefault` returns what it returns without it and leaves that value in `G` under the key |
| ModuleScope.SetDefaultIdempotent | craftr/runtime.py:466-499 | with `set_global` False, a second `setdefault` returns the same value and changes nothing |
| ModuleScope.TargetDeclOutcome | craftr/runtime.py:520-568 | declaring a target succeeds exactly when the name is non-empty, unbound and the target accepts its arguments; the target is stored, and nothing changes on failure |
| ModuleScope.TargetDeclBound | craftr/runtime.py:564-567 | a declared target is bound in the locals under its name |
| ModuleScope.TargetDeclBinds | craftr/runtime.py:559-567 | a declared target is found by `get`, and declaring it again is refused |
| ModuleScope.ModuleGetNamespaceBinds | craftr/runtime.py:433-451 | afterwards the root namespace is bound in the locals and the result is the namespace asked for |
| ModuleScope.FirstConflictIsFirst | craftr/runtime.py:419-422 | the conflict reported is the first unsatisfied precondition, and there is none exactly when all are satisfied |
| ModuleScope.SetAllSets | craftr/runtime.py:424-427 | every precondition is set on the namespace, the last one of a key winning |
| ModuleScope.SetAllKeys | craftr/runtime.py:424-427 | after the setattr loop the namespace holds exactly its old keys and every precondition key |
| ModuleScope.SetAllLastWins | craftr/runtime.py:424-427 | the last precondition naming a key decides its value |
| ModuleScope.SetAllKeepsOthers | craftr/runtime.py:424-427 | attributes no precondition names keep their values |
| ModuleScope.AssignAllKeys | craftr/runtime.py:424-427 | successive assignments into a dictionary add exactly the assigned keys |
| ModuleScope.AssignAllLastWins | craftr/runtime.py:424-427 | of successive assignments into a dictionary, the last one to a key wins |
| ModuleScope.AssignAllKeeps | craftr/runtime.py:424-427 | a key no assignment names keeps its value |
| ModuleScope.SetAllElsewhere | craftr/runtime.py:424-427 | setting the preconditions changes only that namespace entity |
| ModuleScope.SetAllSatisfies | craftr/runtime.py:424-427 | preconditions with distinct keys are satisfied once set |
| ModuleScope.PreconditionConflictIff | craftr/runtime.py:417-422 | for a loaded module, `load_module` fails exactly when a precondition is missing or different, and names the first one |
| ModuleScope.LoadNeverConflicts | craftr/runtime.py:417-429 | a loaded module whose locals satisfy the preconditions is returned as it is |
| ModuleScope.ModuleLoadBinds | craftr/runtime.py:391-431 | loading through a module keeps the caches coherent, returns the locals of the registered module and binds the root name in the caller's locals |
| Preconditions.GetPlainNamespaceQuiet | craftr/runtime.py:94-119 | asking for an undotted namespace creates it if needed and touches nothing else |
| Preconditions.ScanQuiet | craftr/runtime.py:181-188 | the search registers nothing and leaves every entity and namespace as it was |
| Preconditions.SettledStable | craftr/runtime.py:94-119 | asking again for a settled namespace changes nothing |
| Preconditions.SetAllKeepsSettled | craftr/runtime.py:424-427 | setting attributes on a namespace leaves the links along its name in place |
| Preconditions.RegisterCopies | craftr/runtime.py:77-82 | registering gives the module's locals the namespace's attributes, except those starting with `__` |
| Preconditions.LoadCopies | craftr/runtime.py:145-191 | a module loaded after the preconditions were set on its namespace holds them once registered |
| Preconditions.RegisterAt | craftr/runtime.py:171-176 | registering the cached module leaves the preconditions in its locals |
| Preconditions.BindRootKeeps | craftr/runtime.py:448-450 | binding the root namespace changes no attribute but the root's |
| Preconditions.PreconditionsReachModule | craftr/runtime.py:391-431 | on success, the returned locals of a module loaded for the first time hold every precondition, except `__*` keys and the root name |
| Preconditions.PreparedSets | craftr/runtime.py:424-427 | after the preconditions are set, the namespace is settled and holds them all |
| Runtime.Session.GetNamespace | craftr/runtime.py:94-119 | the loop over the parts leaves the session as `GetNamespaceSpec` says and returns the proxy |
| Runtime.Session.RegisterModule | craftr/runtime.py:69-92 | `_register_module` changes the session as `RegisterSpec` says |
| Runtime.Session.TakeOver | craftr/runtime.py:77-84 | the namespace's public attributes move into the module's locals, which take the namespace's place |
| Runtime.Session.LoadModuleFile | craftr/runtime.py:193-217 | `load_module_file` changes the session as `LoadModuleFileSpec` says |
| Runtime.Session.LoadModule | craftr/runtime.py:145-191 | `load_module` changes the session as `LoadModuleSpec` says |
| Runtime.Session.Scan | craftr/runtime.py:181-188 | the search loop changes the session as `ScanSpec` says |
| Runtime.Module.Resolve | craftr/runtime.py:577-587 | the `getattr` loop gives the object and the last part |
| Runtime.Module.Get | craftr/runtime.py:501-518 | `Module.get` returns what the lookup specification says |
| Runtime.Module.Defined | craftr/runtime.py:453-464 | `Module.defined` is true exactly when the lookup succeeds |
| Runtime.Module.SetDefault | craftr/runtime.py:466-499 | `setdefault` changes the session and returns as `SetDefaultSpec` says |
| Runtime.Module.Target | craftr/runtime.py:520-568 | `target` changes the session and returns as `TargetDeclSpec` says |
| Runtime.Module.GetNamespace | craftr/runtime.py:433-451 | `get_namespace` binds the root and returns the namespace as `ModuleGetNamespaceSpec` says |
| Runtime.Module.Prepare | craftr/runtime.py:417-427 | the precondition loops check a loaded module or set the preconditions on the namespace, as `Prepared` says |
| Runtime.Module.LoadModule | craftr/runtime.py:391-431 | `Module.load_module` changes the session and returns as `ModuleLoadSpec` says |
| Runtime.CopyAttributes | craftr/runtime.py:79-82 | the loop copies exactly the attributes not starting with `__`, in any order |
| Cli.VersionOf | craftr/__main__.py:77-80 | `Version(s)` when it parses, else `VersionCriteria(s)`, which may raise |
| Cli.ParseModuleSpec | craftr/__main__.py:66-81 | the spec is split at `:`; more than two parts raise `InvalidModuleSpec`; a parsed spec is a colon-free name alone (the version then `*`) or the name and version text joined by `:`; the version text is tried as a `Version`, then as `VersionCriteria`, and otherwise fails as criteria that are neither |
| Cli.ParseModuleSpecBare | craftr/__main__.py:72-81 | a spec without a colon names the module in version `*` |
| Cli.ParseModuleSpecPair | craftr/__main__.py:72-81 | `name:version` gives back the name and the version text |
| Cli.ParseModuleSpecShape | craftr/__main__.py:72-74 | a spec is malformed exactly when it has more than one colon; a parsed one is the name, or name and version joined by `:` |
| Cli.VolatileVersion | craftr/__main__.py:84-101 | corrected: a name without `-` comes back whole with no version; a version split off is hyphen-free, parses as a version and follows the rest of the name after `-`; otherwise the name is whole |
| Cli.VolatileVersionAsWritten | craftr/__main__.py:84-101 | without a version the name comes back unchanged |
| Cli.VolatileVersionLosesName | craftr/__main__.py:92-100 | as written, a hyphen-free name that parses as a version comes back with an empty name |
| Cli.VolatileVersionSplits | craftr/__main__.py:84-101 | corrected: a version split off is hyphen-free and follows the name after `-`; otherwise the name is whole |
| Cli.VolatileVersionRoundTrip | craftr/__main__.py:84-101 | corrected: `name-version` splits back into the name and the version |
| Cli.VolatileVersionAgrees | craftr/__main__.py:92-100 | the corrected and written versions agree exactly except on hyphen-free names that parse as versions |
| Cli.AssignedKeys | craftr/__main__.py:59-62 | after the assignments a key is present exactly when some assignment names it |
| Cli.AssignedLastWins | craftr/__main__.py:59-62 | a key holds the value of the last assignment that names it |
| Cli.EntriesFrom | craftr/__main__.py:60-62 | each assignment is `section.option` with that option's value, for some option of some section, and every option gives one |
| Cli.ReadConfigKeys | craftr/__main__.py:47-63 | the flattened configuration has a key `section.option` for every option of every section, holding one such option's value, and nothing else |
| Cli.ReadConfigFile | craftr/__main__.py:53-63 | the nested loops give the flattened configuration, or nothing for a missing file |
| Cli.ReadSection | craftr/__main__.py:61-62 | the inner loop adds one section's options under `section.option` |
| Cli.Define | craftr/__main__.py:151-157 | corrected: `-d key` stores "true", `-d key=` removes the key, `-d key=value` stores the value, and no other key changes |
| Cli.DefineFlagDropped | craftr/__main__.py:151-153 | as written, `-d key` without `=` changes nothing |
| Cli.DefineAsWritten | craftr/__main__.py:151-157 | as written: an item with `=` is applied as the corrected `Define` applies it; an item without `=` leaves the options unchanged |
| Cli.DefinesAsWritten | craftr/__main__.py:150-157 | as written: the loop equals the corrected loop over only the items that hold `=`, in order |
| Cli.WithValue | craftr/__main__.py:150-157 | the items kept by the loop as written all hold `=` |
| Cli.DefinesAgree | craftr/__main__.py:150-157 | the written and corrected loops agree when every item holds `=` |
| Cli.DefinesKeep | craftr/__main__.py:150-157 | a key that no item names keeps its entry |
| Cli.DefinesLastWins | craftr/__main__.py:150-157 | the last item naming a key decides that key |
| Cli.SessionOptions.ApplyDefines | craftr/__main__.py:150-157 | corrected: the `-d` loop leaves the options as the corrected `Defines` says |
| Cli.Configure | craftr/__main__.py:149-157 | corrected: the options become the configuration file over the old options, then the corrected `-d` items over that |
| Cli.QualifyTargetAsWritten | craftr/__main__.py:200-213 | the module, version and short target name a requested target is looked up by, with `get_volatile_module_version` as written; the short name has no `.` |
| Cli.QualifyTarget | craftr/__main__.py:200-213 | corrected: the same with the corrected `get_volatile_module_version`; the short name has no `.` |
| Cli.QualifyAgrees | craftr/__main__.py:208-213 | the written and corrected qualifications differ exactly on an absolute target whose module part has no `-` and parses as a version |
| Cli.QualifyLosesModule | craftr/__main__.py:208-213 | as written, `1.0.x` (when `1.0` parses as a version) asks for `x` in the module `''` at version `1.0`; corrected, in module `1.0` at any version |
| Cli.QualifyBare | craftr/__main__.py:202-204 | a name without `.` is a target of the current package in its version, as written and corrected |
| Cli.QualifyRelative | craftr/__main__.py:205-207 | `.name` means the same as `name`, as written and corrected |
| Cli.QualifyAbsoluteAsWritten | craftr/__main__.py:208-213 | as written, `module.name` looks `name` up in that module, whole, with a `-version` suffix split off, or, when the whole parses as a version, in the module `''` at that version |
| Cli.QualifyAbsolute | craftr/__main__.py:208-213 | corrected: `module.name` looks `name` up in that module, with any `-version` suffix split off, and the parts give the module back |

## Left out

- Logger output, progress-bar display and `print` are left out. The events `_extract_progress` and `_download_progress` send to the progress bar are modelled as a sequence.
- JSON decoding (`json.load`) and `jsonschema` are left out: `Manifest.parse` starts from a decoded document, and the schema is the predicate `SchemaValid`.
- `Version`, `VersionCriteria`, `pyutils.import_`, `utils.ident.validate`, `utils.path.normpath`, `fnmatch`, `get_opener`, `string.Template.safe_substitute`, the HTTP download and `nr.misc.archive.extract` are library code that is not part of this model; they are parameters.
- `Session.find_module` (version-based module selection) is not part of this model. Target qualification stops at the module name, version and short target name. `craftr.targetbuilder.get_full_name` and the `no such target` check are left out too.
- `configparser` is library code. The configuration file is given as its sections and options in order, so option-name case folding, interpolation and the `DEFAULT` section are not modelled.
- `Module.execute` is left out: it runs the script with `exec`. The model records only the `executed` flag it sets.
- `Session._init_globals`, platform data and the session constructor's environment are left out.
- `utils.lists.autoexpand`, used on target inputs, outputs and commands, is left out; those values are kept as given.
- The `isinstance` checks on `required_by`, `module` and `name` are not modelled; Dafny's types enforce them.
- `target_class` is left out; only the built-in `Target` class is modelled.
- Names derived from the caller's frame (`sys._getframe`, `utils.dis.get_assigned_name`) are left out. A target declaration must therefore give its name.
- `DataEntity` internals and attribute redirection through `extends` are left out. An entity is its id and a map of attributes.
- Python `==` between arbitrary objects, used in precondition checks, is modelled as equality of model values.
- A module file is given as the lines Python's text mode yields, after newline translation; reading the file and decoding it are left out.
- `repr` quoting is simplified: in the `NoSuchModule` message a module shows as `<Module 'id'>`.
- `Session.path` and `utils.path.iter_tree` are a parameter: the sequence of files the search visits.
- Module objects are always truthy, as Python objects without `__bool__` are. `if module:` in `Module.load_module` is therefore the test for presence.
- Preconditions.PreconditionsReachModule and Preconditions.PreparedSets require, as a hypothesis, that no two namespace names share an entity. This is not proved to be an invariant of the session.
- Preconditions.PreconditionsReachModule excludes preconditions named after the root of the module name, because `load_module` rebinds that name afterwards.
- Loading.NewModule allocates the module's `globals` namespace before its locals entity. The order of allocation in the source is not otherwise observable.
- Runtime.CopyAttributes copies the attributes in the order of the set of keys, not in the order of `vars()`. The result is the same for any order.
- `get_volatile_module_version` has a branch for `len(parts) != 2` that cannot be taken, because `rpartition` always gives three parts. It has no member.
- Runtime.Module.Get: attributes are looked up only on entities (namespaces, module locals and data objects of the model). A dotted name through a module object, the session, a builtin or a plain value, such as `get('session.options')`, fails in the model where Python's `getattr` would find the attribute.
- Runtime.Module.Defined: for the same reason, `defined('module.identifier')` is false in the model and true in Python.
- Runtime.Module.Resolve: the walk over a dotted name stops at the first value that is not an entity; attributes of module objects, the session and builtins are not modelled.
- Runtime.Module.SetDefault: `setdefault('module.x', 1)` fails in the model, where Python sets the attribute on the module object; the same holds for any other object that is not an entity.
- ModuleScope.GetSpec, ModuleScope.Resolve, ModuleScope.Defined and ModuleScope.SetDefaultSpec, and the lemmas about them, share this restriction: an attribute of anything but an entity is missing.
- ModuleScope.SetDefaultThenGet: stated with `set_global` False only. With `set_global` True, `setdefault('G.b.b', 1)` on a fresh `G.b` sets `G.b.b` and then `G.b` itself to 1, so `get('G.b.b')` fails afterwards. ModuleScope.SetDefaultWritesGlobals states what `set_global` does.
- ModuleScope.SetDefaultKeepsExisting: stated with `set_global` False; ModuleScope.SetDefaultGlobalKeepsExisting states the `set_global` True case.
- ModuleScope.SetDefaultIdempotent: stated with `set_global` False, for the reason given for SetDefaultThenGet: with `set_global` True the write to `G` can replace the object the name resolves through.
- ManifestParse.ParseSpec: a dotted `type` is imported through a parameter that names one of the built-in option classes, the loader class or another class. The abstract bases `BaseOption` and `BaseLoader` are modelled (ManifestParse.AbstractBasesRefused). A user-defined subclass of an option class or of `BaseLoader` is modelled as the built-in class it stands for; its own `__init__`, `__call__` or `load` is not modelled. ManifestParse.ParseAcceptsExactly and Options.ResolveOutcomes share this.
- UrlLoading.Unpack: `unpack_single_dir=True` is not modelled. When an archive holds a single top-level directory, `nr.misc.archive.extract` moves its contents up one level; the model writes members under their archive names. The order of the progress callbacks (first with index `-1`, then `0` … `count - 1`) is modelled only by Archive, not by Unpack.
- Archive.DownloadProgress: the progress `downloaded / size` and the percentage `int(progress * 100)` are computed on exact rationals, where Python uses binary floats. Python's percentage can therefore be one lower: 29 of 100 gives `int(28.999999999999996)`, shown as "28%" where the model shows 29, and 57 of 100 shows "56%". The extraction progress `index / float(count)` (Archive.ExtractProgress, Archive.ExtractProgressAsWritten) is likewise an exact rational.
- Json: JSON numbers with a fraction or an exponent, which `json.load` returns as floats, are not modelled; the `Json` type has integers only. So a float option value or default, and its truth value in an option conversion (`bool(0.0)` is False), are outside the model.
- Targets.IsDecimalDigit follows the decimal-digit table of Unicode 14.0, the one of Python 3.11. That is the last Python on which `read_config_file` runs, since 3.12 removed `configparser.SafeConfigParser`. On a later Python `\d` also accepts the Kawi and Nag Mundari digits of Unicode 15.0; an earlier one accepts fewer digits.
- Json.Get returns the first entry for a key. A `JObj` stands for a `dict` only when its keys are distinct, which is what `json.load` returns; documents that repeat a key are not modelled.
- Text.Lower folds only `A`-`Z`; Python's `str.lower` folds every cased character (`İ` becomes two characters). Every accepted word is ASCII, so acceptance agrees, but the lower-cased value shown in a refusal (Options.WordOf, for `É`) can differ.
- Cli.Configure and Cli.SessionOptions.ApplyDefines apply the corrected `-d` loop. The loop as written is Cli.DefinesAsWritten; Cli.DefinesAgree relates the two.
- The `startpackage` command, `write_cache`, the cache file, the Ninja export and `main`'s argparse wiring are command-line I/O and are left out.

## Findings

| source | as written | input that shows it | evidently intended | confidence | as-written member | corrected member |
|---|---|---|---|---|---|---|
| craftr/__main__.py:150-157 | `-d key` with no `=` sets `value = 'true'` and then stores nothing | `-d debug` leaves `session.options` unchanged | `-d key` stores `'true'` under `key` | high, not executed | Cli.DefineFlagDropped | Cli.Define |
| craftr/core/manifest.py:625-637 | the first member takes the `index == 0` branch and never the `index == count - 1` one | an archive with one member: the bar begun for it is never ended | the progress of the last member is ended, also when it is the first | medium, not executed | Archive.OneMemberLeftOpen | Archive.ExtractionBalanced |
| craftr/__main__.py:92-100 | `rpartition('-')` of a name without `-` gives an empty head, and the whole name is tried as a version | the module name `1.0` gives `('', Version('1.0'))` | a name without a `-<version>` suffix comes back whole, with `None` | medium, not executed | Cli.VolatileVersionLosesName | Cli.VolatileVersionRoundTrip |
| craftr/__main__.py:208-213 | an absolute target's module part goes through `get_volatile_module_version` as written | `craftr build 1.0.x` looks `x` up in the module `''` at version `1.0` | the target is looked up in the module `1.0` | medium, not executed | Cli.QualifyLosesModule | Cli.QualifyAbsolute |
