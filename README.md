# EasyWebDAV request handler, in Dafny

This project models the `DavHandler` class of EasyWebDAV-PHP (`index.php`). The
class is a single-script WebDAV server. It maps a request URI onto a storage
directory beside the script, then answers OPTIONS, GET, HEAD, PUT, PROPFIND,
DELETE, MKCOL, COPY, MOVE, LOCK and UNLOCK. It hides a fixed set of names:
`.`, `..`, `.htaccess`, `.htpasswd` and the script's own file name.

The model has the following parts:

- **Strings** (`php_strings.dfy`). PHP strings are byte strings (`Str`). The
  module defines the PHP helpers the handler relies on: `str_replace`,
  `strpos(...) === 0`, `empty`, `basename`, `dirname`, the `(int)` cast,
  `strtolower`, `pathinfo` extension and `htmlspecialchars`.
- **The filesystem** (`fs_tree.dfy`, `posix.dfy`). The directory holding the
  script (`ROOT_DIR`) is a tree of files and directories. A string path is
  resolved lexically against `ROOT_DIR`: empty and `.` segments are dropped,
  `..` climbs one level, and a trailing `/` demands a directory. A path that
  leaves `ROOT_DIR` resolves to nothing. The system calls the handler uses are
  pure functions on the tree: `mkdir`, recursive `mkdir`, `rmdir`, `unlink`,
  writing a file and `rename`. Copying one file is modelled as writing the
  source's bytes at the destination. The `FileSystem` class holds the tree.
  Its methods perform each call in place and are proved equal to those
  functions.
- **Recursive removal and copy** (`tree_ops.dfy`). These are the tree-level
  meaning of `rm` and `cp`, with lemmas about what they leave behind.
- **Listing order** (`listing.dfy`). `scandir` returns names in byte order. A
  selection method computes that order, and a lemma proves it equals the unique
  sorted listing.
- **URL coding** (`url_coding.dfy`). Covers `rawurlencode`, `rawurldecode` and
  the href encoding of PROPFIND, where `%2F` goes back to `/`.
- **Content types** (`mime.dfy`). The extension table of `mime`.
- **Protocol** (`protocol.dfy`). Each verb is a function from the request and
  the tree to a response and a new tree.
- **Handler** (`dav.dfy`). `DavHandler` is a class holding the three parsed
  paths and the filesystem. Each `do*` method, `rm` and `cp` runs on the
  `FileSystem` object, and its contract ties its response and the new tree to
  the protocol function.
- **Properties** (`protocol_props.dfy`). Lemmas about the protocol.

Responses are values: a status, headers and a body. The body is one of: none,
file bytes, the browser page marker, a list of PROPFIND entries, or a lock
token.

Where the code does not do what its own comments (index.php:149, 194, 291) and its
hidden-file feature suggest, the model follows the code:

- GET hides a file with a hidden name (index.php:194-197). HEAD (index.php:346)
  does not, and answers 200.
- The root guard of DELETE compares the raw `fsPath` with `STORAGE_PATH`. A
  request for `/` gives `fsPath == STORAGE_PATH + "/"`, which passes the guard.
  Everything visible in storage is then removed (`DavProperties.DeleteStorageRoot`).
- The traversal filter removes `../` and then `..\` in a single pass each. It
  can create a new `../` out of what is left: `/....//x` becomes `/../x`. A PUT
  to that path writes beside the storage directory, next to the script
  (`DavProperties.PutEscapesStorage`).
- The Destination path of COPY and MOVE is not filtered at all
  (`DavProperties.DestinationEscapes`).
- The script's name is cut off the URI with no check that a path segment ends
  there. With the script at the web root, `/index.phpfoo` gives the request path
  `foo` and the filesystem path STORAGE_PATH + `foo`. That is the entry
  `storagefoo` beside the storage directory, so a PUT there writes next to the
  script (`DavProperties.ScriptNameNoBoundary`).
- The filter only removes `..` when a slash follows it. `/..`, or the encoded
  `/%2e%2e`, gives the filesystem path STORAGE_PATH + `/..`, which passes the
  root guard of DELETE. `rm` then runs on the script's own directory: every
  entry there with a visible name is removed, and only hidden names such as the
  script survive (`DavProperties.ParentUri`, `DavProperties.DeleteRootDir`).

## Model

| member | source | states |
|---|---|---|
| Config.IsHidden | index.php:459-461 | a name is hidden exactly when it equals one of `.`, `..`, `.htaccess`, `.htpasswd` or the script file name, compared as whole names |
| Config.StoragePath | index.php:20-23 | STORAGE_PATH is ROOT_DIR, a separator and exactly `storage` after it |
| Protocol.BeforeQuery | index.php:133 | the URI is cut at its first `?`: the part kept has no `?`, is a prefix of the URI, and is either the whole URI or followed by `?` |
| Protocol.Sanitize | index.php:150 | removing `../` and then `..\` never makes the path longer |
| Protocol.ParsePath | index.php:132-152 | the request path is never empty, and the filesystem path is STORAGE_PATH followed by the filtered request path |
| DavProperties.ParsePathDefaultsToRoot | index.php:143-151 | when nothing is left of the URI after the script directory and name, the request path is `/` and the filesystem path is STORAGE_PATH + `/` |
| DavProperties.FsPathUnderStorage | index.php:150-151 | the filesystem path starts with STORAGE_PATH and is at most as long as STORAGE_PATH plus the request path |
| DavProperties.ScriptNameNoBoundary | index.php:144-151 | with the script at the web root, the URI `/` + script name + `foo` gives the request path `foo` and the filesystem path STORAGE_PATH + `foo`, the entry `storagefoo` beside the storage directory |
| DavProperties.DecodeDots | index.php:133 | `/%2e%2e` decodes to `/..` |
| DavProperties.SlashDotDotKept | index.php:150 | the filter leaves `/..` unchanged |
| DavProperties.ParentUri | index.php:132-151 | with the script at the web root, the URIs `/..` and `/%2e%2e` give the filesystem path STORAGE_PATH + `/..` |
| DavProperties.SanitizeUnchanged | index.php:150 | the filter leaves a path unchanged if and only if it contains neither `../` nor `..\` |
| DavProperties.FirstPassJoins | index.php:150 | removing `../` from `/....//name` leaves `/../name` |
| DavProperties.SanitizeReintroduces | index.php:150 | the filtered form of `/....//name` is `/../name`, which still contains `../` |
| DavProperties.PlaceStorage | index.php:23 | STORAGE_PATH resolves to the `storage` entry of the root, and STORAGE_PATH + `/` to the same entry as a directory |
| DavProperties.PlaceStorageParent | index.php:23 | STORAGE_PATH + `/..` resolves to the script directory itself |
| DavProperties.EscapeLandsBesideStorage | index.php:150-151 | STORAGE_PATH + `/../name` resolves to the entry `name` beside `storage` |
| DavProperties.PlaceChild | index.php:251 | appending `/name` to a path that resolves adds one step `name` to its location |
| Dav.DavHandler.constructor | index.php:126-152 | the handler keeps the installation's hidden names and filesystem, and its three paths are those `parsePath` computes from the URI and script name it keeps |
| Dav.DavHandler.Serve | index.php:154-172 | for a request with the URI and script name the handler was built from, the response and the new tree are what the dispatch function gives |
| Protocol.Serve | index.php:154-172 | every answer is one of 200, 201, 204, 207, 400, 403, 404, 405, 409, 412 and 500 |
| DavProperties.DispatchUnknown | index.php:169 | a verb outside the eleven answers 405 and changes nothing |
| DavProperties.DispatchReadOnly | index.php:158-168 | GET, HEAD, PROPFIND, OPTIONS, LOCK and UNLOCK never change the tree |
| DavProperties.DispatchFixedAnswers | index.php:178-183 | OPTIONS answers 200 and announces DAV 1, 2; LOCK (lines 338-344) answers 200 with a `urn:uuid:` token carried both in the Lock-Token header and in the body; UNLOCK answers 204 |
| Dav.DavHandler.DoOptions | index.php:178-183 | the response is the fixed OPTIONS answer |
| Dav.DavHandler.DoLock | index.php:338-344 | the response is the lock answer built from the generated identifier |
| Dav.DavHandler.DoUnlock | index.php:345 | the response is 204 |
| Dav.DavHandler.DoGet | index.php:185-211 | the response is the GET function's answer on the current tree |
| Protocol.HandleGet | index.php:185-211 | GET answers 200 or 404, and 404 exactly when nothing exists at the path or it is a file with a hidden name |
| DavProperties.GetHiddenFileNotFound | index.php:194-197 | GET of an existing file whose name is hidden answers 404 |
| DavProperties.GetServesFile | index.php:199-210 | GET of a visible file answers 200 with its bytes, its content type and a Content-Length that reads back as its size |
| Dav.DavHandler.DoHead | index.php:346 | the response is 200 when the path exists and 404 otherwise |
| Protocol.HandleHead | index.php:346 | HEAD answers 200 or 404, and 200 exactly when something exists at the path |
| DavProperties.HeadSeesHidden | index.php:346 | for a hidden file HEAD answers 200 while GET answers 404 |
| Dav.DavHandler.DoPut | index.php:213-230 | the response and the new tree are what the PUT function gives |
| Protocol.HandlePut | index.php:213-230 | PUT answers 201, 403 or 500; 403 exactly when the base name is hidden, and then nothing changes |
| DavProperties.PutHiddenForbidden | index.php:215 | PUT to a hidden name answers 403 and changes nothing |
| DavProperties.PutStoresBody | index.php:217-226 | when PUT answers 201, the target holds exactly the request body, and every entry other than the target, the directories created for it and their ancestors is unchanged |
| DavProperties.WriteAfterMkdirs | index.php:217-224 | making the directory when it is not one and then writing the file succeeds if and only if no file stands on the way to the directory and no directory stands at the name |
| DavProperties.PutSucceeds | index.php:213-226 | PUT of a visible name inside a directory path answers 201 if and only if no file stands on the way to the directory and no directory stands at the name; otherwise 500 |
| DavProperties.EscapePathParts | index.php:215-217 | the base name of STORAGE_PATH + `/../name` is `name`, and its directory is STORAGE_PATH + `/..` |
| DavProperties.PutEscapesStorage | index.php:213-226 | a PUT to `/....//name` answers 201 and writes `name` beside the storage directory |
| Dav.DavHandler.DoPropfind | index.php:232-287 | the response is the PROPFIND function's answer on the current tree |
| Dav.DavHandler.PropfindPaths | index.php:243-259 | the collected paths are the target itself, then its visible children when depth is not 0; a file's own path is kept only when it is not hidden |
| Dav.DavHandler.ChildrenOf | index.php:247-252 | the loop over the listing keeps the visible names, in listing order, each joined to the directory path |
| Dav.DavHandler.EntryOf | index.php:261-284 | the entry computed for one path is the one the entry function specifies |
| Protocol.Visible | index.php:250 | a name is kept if and only if it is in the listing and is not hidden |
| Protocol.ChildPaths | index.php:251 | one path per name, each the directory joined to the name with one slash |
| Protocol.EntryFor | index.php:261-272 | the href starts with the base URI; decoding the rest gives back the path below STORAGE_PATH; the display name is the escaped base name |
| Protocol.Describe | index.php:261-285 | one entry per collected path, in the same order |
| Protocol.KindOf | index.php:276-282 | an entry is a collection if and only if its path is a directory |
| UrlCoding.Href | index.php:266 | the href starts with the base URI, and raw-URL-decoding the rest gives back the sub-path |
| UrlCoding.EncodePathBytewise | index.php:266 | replacing `%2F` by `/` in the raw-URL encoding equals encoding byte by byte with slashes kept |
| UrlCoding.DecodeSegments | index.php:266 | decoding the byte-by-byte encoding gives back the input |
| UrlCoding.EncodedAlphabet | index.php:266 | the encoding uses only unreserved bytes, `/`, `%` and hexadecimal digits |
| UrlCoding.HexRoundTrip | index.php:266 | every hexadecimal digit written reads back as its value |
| UrlCoding.RawUrlEncode | index.php:266 | the encoding is no shorter than its input and contains neither `/` nor `?` |
| UrlCoding.DecodeEncodedByte | index.php:266 | decoding reads one encoded byte back |
| UrlCoding.RawUrlRoundTrip | index.php:266 | `rawurldecode` undoes `rawurlencode` |
| UrlCoding.RawUrlDecode | index.php:133 | decoding never lengthens a string, and leaves one without `%` unchanged |
| UrlCoding.DecodePlainPrefix | index.php:307 | a prefix without `%` passes through decoding unchanged |
| Protocol.HandlePropfind | index.php:232-287 | PROPFIND answers 207 or 404, and 404 if and only if the path does not exist |
| DavProperties.DepthValues | index.php:235 | a missing Depth header counts as 1, and `infinity` casts to 0 |
| DavProperties.PropfindHiddenFile | index.php:254-259 | PROPFIND of an existing file with a hidden name answers 207 with no entries |
| DavProperties.PropfindFile | index.php:254-282 | PROPFIND of a visible file answers 207 with one entry carrying its length and content type |
| DavProperties.PropfindDepthZero | index.php:244-246 | PROPFIND of a directory at depth 0 answers 207 with one entry, the one built for the directory's own path |
| DavProperties.PropfindListsChildren | index.php:244-285 | at any other depth the entries are the directory and then every visible child once, in byte order, each named by its escaped name and a collection exactly when the child is a directory |
| DavProperties.DescribeChildren | index.php:244-285 | the entries for a directory and its child paths are the directory's own entry followed by one entry per child, in order |
| DavProperties.VisibleSorted | index.php:247-252 | filtering hidden names keeps a sorted listing sorted |
| DavProperties.ListedVisible | index.php:247-252 | the filtered listing is sorted and holds exactly the children whose names are not hidden |
| DavProperties.ChildPathBasename | index.php:272 | the base name of a child path is the child's name |
| DavProperties.ChildEntry | index.php:272-282 | a child's entry shows the child's escaped name and is a collection exactly when the child is a directory |
| Listing.Smallest | index.php:247 | the name returned is the smallest of the set in byte order |
| Listing.SortedNames | index.php:247 | the listing is sorted in byte order and holds exactly the given names |
| Listing.ListedIsSortedNames | index.php:247 | any sorted listing of a set of names equals the specified listing |
| Listing.SortedUnique | index.php:247 | two sorted sequences with the same elements are equal |
| Listing.BelowTotal | index.php:247 | byte order is total: two different names are ordered one way or the other |
| Listing.BelowTransitive | index.php:247 | byte order is transitive |
| Mime.Mime | index.php:473-481 | a listed lower-cased extension gets the table's type, any other gets `application/octet-stream` |
| Mime.MimeIgnoresCase | index.php:474 | two names whose extensions differ only in letter case get the same type |
| Dav.DavHandler.DoDelete | index.php:289-295 | the response and the new tree are what the DELETE function gives |
| Protocol.HandleDelete | index.php:289-295 | DELETE answers 204, 403 or 404, and changes nothing unless it answers 204 |
| DavProperties.DeleteRefused | index.php:290-292 | a missing path answers 404; STORAGE_PATH itself answers 403; neither changes the tree |
| DavProperties.DeleteRemoves | index.php:293-294 | otherwise DELETE answers 204 and the target is replaced by what `rm` leaves; it is gone if and only if nothing hidden lies below it |
| DavProperties.DeleteStorageRoot | index.php:292-294 | DELETE of `/` passes the root guard and runs `rm` on the whole storage directory |
| DavProperties.DeleteRootDir | index.php:289-294 | DELETE of STORAGE_PATH + `/..` answers 204 and runs `rm` on the script's directory: hidden entries stay, and the storage directory goes if and only if nothing hidden lies in it |
| Dav.DavHandler.DoMkcol | index.php:297-300 | the response and the new tree are what the MKCOL function gives |
| Protocol.HandleMkcol | index.php:297-300 | MKCOL answers 201, 405 or 409, and changes nothing unless it answers 201 |
| DavProperties.MkcolExisting | index.php:298 | MKCOL of an existing path answers 405 and changes nothing |
| DavProperties.MkcolOutcome | index.php:299 | otherwise MKCOL answers 409 if and only if some prefix of the path is a file, and changes nothing then; in every other case it answers 201 with an empty directory at the path, and no entry except the path and its ancestors changes |
| Dav.DavHandler.DoCopyMove | index.php:302-336 | the response and the new tree are what the COPY/MOVE function gives |
| Dav.DavHandler.CopyMoveTo | index.php:324-335 | after the header checks: 412, or removal of an existing target followed by the transfer, as specified |
| Dav.DavHandler.DoTransfer | index.php:330-335 | MOVE renames and answers 201 or 500; COPY runs `cp` and answers 201 |
| Protocol.HandleCopyMove | index.php:302-336 | COPY and MOVE answer 201, 400, 403, 412 or 500, and 400, 403 and 412 change nothing |
| Protocol.CopyTarget | index.php:306-319 | the target path starts with STORAGE_PATH |
| DavProperties.DestinationFromEntry | index.php:306-319 | a Destination copied from a PROPFIND href targets exactly the path that href was built for, when the base URI has no `%` and is not `/` |
| DavProperties.CopyMoveNoDestination | index.php:303-304 | a missing or empty Destination answers 400 and changes nothing |
| DavProperties.CopyMoveHiddenTarget | index.php:322 | a target with a hidden base name answers 403 before anything is removed |
| DavProperties.CopyMoveNoOverwrite | index.php:324-326 | an existing target with `Overwrite: F` answers 412 and changes nothing |
| DavProperties.CopyFreeTree | index.php:468-471 | `cp` onto a free name puts the filtered source there; entries neither above nor below the target are unchanged, the source among them unless it contains the target |
| DavProperties.CopyOntoFree | index.php:330-334 | COPY to a free name answers 201 and the target holds the source without its hidden entries; entries neither above nor below the target are unchanged, the source among them unless it contains the target |
| DavProperties.RemovedLeavesFree | index.php:327 | removing a target with nothing hidden below it frees its name and leaves its parent a directory |
| DavProperties.CopyReplaces | index.php:325-334 | COPY over an existing target with nothing hidden below it answers 201; the target then holds the filtered source and the source is unchanged |
| DavProperties.CopyMoveMissingSource | index.php:325-335 | with a missing source the existing target is still removed; COPY answers 201 and MOVE 500 |
| DavProperties.MoveOntoFree | index.php:330-331 | MOVE to a free name answers 201 if and only if the rename succeeds; then the source is at the target and gone from its place, otherwise 500 with nothing changed |
| DavProperties.MoveReplaces | index.php:325-331 | MOVE over an existing target with nothing hidden below it, with Overwrite not `F`, removes the target, answers 201 and leaves the source's entry at the target and nothing at the source |
| DavProperties.DestinationEscapes | index.php:306-319 | a Destination path `/../name` is used unfiltered and reaches the entry `name` beside the storage directory |
| Dav.DavHandler.Rm | index.php:463-466 | the new tree is `rm` on the old one; the answer is true if and only if the path is not the root and nothing hidden was left below it |
| Dav.DavHandler.RmChildren | index.php:464 | the loop removes every visible child in listing order and leaves the directory with only what `rm` keeps |
| Dav.DavHandler.RmEntry | index.php:464 | one step of that loop: a visible child is removed, a hidden one skipped |
| TreeOps.RmRemovesAll | index.php:463-466 | `rm` removes an entry completely if and only if no hidden name lies anywhere below it |
| TreeOps.RmKeepsHidden | index.php:464 | every hidden entry below the removed path survives unchanged |
| TreeOps.RmLeavesOnlyHidden | index.php:464 | every file that survives `rm` lies below a hidden name |
| TreeOps.RmAt | index.php:463-466 | `rm` of a missing path changes nothing; `rm` of the root directory keeps only what survives in it; a file removed with `unlink` is gone |
| TreeOps.RmAtEntry | index.php:463-466 | `rm` of an existing non-root path replaces that one entry and leaves the rest of the tree alone |
| Dav.DavHandler.Cp | index.php:468-471 | the new tree is `cp` of the source onto the destination |
| Dav.DavHandler.CpChildren | index.php:469 | the loop copies every visible child of the source directory into the destination |
| TreeOps.Filtered | index.php:468-471 | the copy of a tree carries no hidden name at any depth |
| TreeOps.CopyFresh | index.php:468-471 | copying onto a free name produces the source with every hidden entry omitted |
| TreeOps.CopyRemovable | index.php:463-471 | `rm` can always remove a fresh copy completely |
| TreeOps.CopyKeepsHidden | index.php:469 | copying onto an existing directory leaves its hidden entries unchanged |
| TreeOps.CpAt | index.php:468-471 | `cp` from a missing source, or into a path whose parent is not a directory, changes nothing |
| TreeOps.CpAtEntry | index.php:468-471 | `cp` into a path whose parent is a directory replaces only that entry |
| TreeOps.CpAtFrame | index.php:468-471 | `cp` changes no entry that is neither above nor below the destination |
| TreeOps.CpAtFresh | index.php:468-471 | `cp` onto a free path puts the filtered source there |
| Posix.Mkdir | index.php:469 | `mkdir` succeeds if and only if the name is free and its parent is a directory; a failure changes nothing |
| Posix.MakeDirsFails | index.php:299 | recursive `mkdir` fails if and only if some prefix of the path is a file |
| Posix.MakeDirsMakes | index.php:299 | after recursive `mkdir` succeeds, the path is a directory |
| Posix.MkdirRecursive | index.php:299 | recursive `mkdir` fails on an existing path and then changes nothing; when it succeeds the path is an empty directory |
| Posix.MakeDirsEmpty | index.php:299 | recursive `mkdir` of a missing path leaves an empty directory there |
| Posix.MakeDirsFrame | index.php:299 | recursive `mkdir` changes no entry except the path and its ancestors |
| Posix.MkdirRecursiveFrame | index.php:299 | the same holds whether or not the call succeeds |
| Posix.Rmdir | index.php:464 | `rmdir` succeeds if and only if the path is an empty directory other than the root |
| Posix.Unlink | index.php:465 | `unlink` succeeds if and only if the path is a file |
| Posix.WriteFile | index.php:221-224 | opening for writing succeeds if and only if the parent is a directory and the target is free or a file |
| Posix.WriteFileFrame | index.php:221-224 | a successful write changes no entry except the file and its ancestors |
| Posix.Rename | index.php:331 | `rename` succeeds exactly when the source exists, neither end is the root, a file is not given a directory-only target, and either the two are the same or the target is outside the source, its parent is a directory and what is there may be replaced; a failure changes nothing |
| Posix.RenameMoves | index.php:331 | after a successful `rename` the source entry is at the target and gone from its old place |
| Posix.FileSystem.MakeDirectory | index.php:469 | the in-place `mkdir` has the outcome and the new tree of the `mkdir` function |
| Posix.FileSystem.MakeDirectories | index.php:299 | the in-place recursive `mkdir` agrees with its function |
| Posix.FileSystem.RemoveDirectory | index.php:464 | the in-place `rmdir` agrees with its function |
| Posix.FileSystem.RemoveFile | index.php:465 | the in-place `unlink` agrees with its function |
| Posix.FileSystem.Write | index.php:220-226 | the in-place write agrees with its function |
| Posix.FileSystem.Move | index.php:331 | the in-place `rename` agrees with its function |
| Posix.FileSystem.Stat | index.php:267 | the answer is the entry at the location, if any |
| PhpStrings.BasenameOfChild | index.php:272 | the base name of a directory joined with a name is that name |
| PhpStrings.DirnameOfChild | index.php:217 | the directory name of a directory joined with a name is that directory |
| PhpStrings.IntCast | index.php:235 | the cast saturates within the 64-bit range, and is negative only for a string whose first non-space byte is `-` |
| PhpStrings.IntCastOfDecimal | index.php:202 | casting the decimal form of a size back to an integer gives the size |
| PhpStrings.IntCastNonNumeric | index.php:235 | a Depth value whose first byte is not a space, a sign or a digit casts to 0 |
| PhpStrings.ReplaceAll | index.php:150 | `str_replace` leaves a string without the pattern unchanged, and never lengthens it when the replacement is no longer than the pattern |
| PhpStrings.ReplaceAllRemoves | index.php:150 | when the pattern occurs, `str_replace` with an empty replacement shortens the string by at least the pattern's length |
| PhpStrings.Basename | index.php:215 | a base name never contains `/` |
| PhpStrings.Dirname | index.php:134 | the directory name of a non-empty path is not empty |

## Left out

- Authentication, the first-run setup page and the writing of `.htaccess`: they run before `DavHandler` is built.
- The HTML browser page of GET on a directory (`sendHtml`), the two POST handlers for browser uploads and new folders, and `fmt`: this is user interface. GET on a directory answers 200 with a marker body.
- Streaming of request and response bodies: the body is a whole byte string. `Last-Modified`, `ETag`, `getlastmodified` and `creationdate` are left out because the model has no clock or file times.
- The model follows PHP 8.1 or later. It relies on three behaviours: an empty `strpos` needle is found at offset 0 (PHP 8), `strtolower` changes ASCII letters only (always from PHP 8.2; before that, because PHP 8 starts in the "C" locale and the script never calls `setlocale`), and `htmlspecialchars` escapes `'` as `&#039;` by default (PHP 8.1: `ENT_QUOTES | ENT_SUBSTITUTE`). On PHP 8.0 the default is `ENT_COMPAT`, which leaves `'` unescaped in the display name. On PHP 7, `strpos($uri, '')` is false, so with the script at the web root every request maps to `/` (index.php:144).
- Config.IsHidden: compares names as byte strings. PHP's loose `in_array` also treats two numeric strings with equal values as the same, so with a numeric script file name, other numeric names would be hidden too.
- Dav.DavHandler.DoLock: `uniqid()` is a parameter, so the token's uniqueness is not modelled.
- XML serialisation of the PROPFIND and LOCK bodies: the entries are kept as values, with the href, the display name, the resource type, the length and the content type.
- `parse_url` of the Destination header: its path component is the request field `destinationPath`, which the model does not derive from `destination`. The `rawurldecode` of that path is modelled.
- The `catch (Exception)` of `serve`: no modelled handler throws, so the 500 branch is unreachable in the model.
- PhpStrings.IntCast: fractions and exponents in the Depth header are not read. The cast stops at the first non-digit.
- Path resolution is lexical. The operating system follows `..` through real directories, and the model does not model a `..` that passes through a missing entry or a file. A path that climbs above the script directory resolves to nothing, and a handler given one answers with a separate `OutsideRoot` response.
- Dav.DavHandler.Cp: copies from a snapshot of the source. When the destination lies inside the source, PHP keeps descending into the new copy until paths grow too long; the model does not.
- Dav.DavHandler.Rm: requires that the path exists, as every call site in the handler guarantees. The `unlink` warning on a missing path is not modelled.
- `htmlspecialchars` handles the five special characters only. The substitution of invalid UTF-8 is not modelled, because strings are bytes with no encoding.
- Concurrent requests on the same filesystem are not modelled.
