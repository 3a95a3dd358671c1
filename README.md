# serverless-wordpress request handler, in Dafny

The gateway runs WordPress on a serverless PHP runtime. Every HTTP request
reaches one PHP entry point. That entry point:

1. joins the hard-coded document root `/mnt/docroot` with the request's
   script name;
2. appends `index.php` when the joined path ends in `/`;
3. if no file exists at that path, answers 404;
4. otherwise reads the extension of the path the way PHP's `pathinfo()`
   does, and then:
   - runs a `php` file as a script;
   - serves a file whose extension is in a fixed table of eight static-file
     types, with the matching `Content-Type` header;
   - answers 406 for any other file.

The project has two modules:

- `PathInfo` (`pathinfo.dfy`) models the part of PHP's `basename()` and
  `pathinfo()` that the handler uses. The basename strips trailing slashes
  and keeps the text after the last `/`. The extension is the text after the
  last `.` of the basename. It is `None` when the basename has no dot, which
  is the case where PHP leaves the array entry out.
- `Handler` (`handler.dfy`) models:
  - the MIME table;
  - path resolution (`Resolve`);
  - the four-way decision (`Classify`, `Dispatch`);
  - the response each decision leads to (`Respond`);
  - the whole run under the fixed root (`HandleRequest`).

`file_exists` is a parameter: the set of paths for which it answers true.

Running the script, sending headers and copying the file are outcome values,
not effects.

PHP reads a missing `extension` entry as `null`, which behaves as follows:

- `null == 'php'` is false.
- `isset($MIME_TYPES[null])` looks up the key `""`, which the table does not
  hold.

`Classify` models both by using `""` as the lookup key when the extension is
absent.

The slash test is made on the joined path (`src/handler.php:23`), not on the
script name alone. The two differ only for an empty script name under a root
ending in `/`. `ResolveUnderDocumentRoot` proves they agree under
`/mnt/docroot`.

## Model

| member | source | states |
|---|---|---|
| Handler.MimeTypes | src/handler.php:3-12 | the eight static-file extensions and their content types |
| Handler.DocumentRoot | src/handler.php:18 | the hard-coded document root `/mnt/docroot` |
| Handler.DefaultDocument | src/handler.php:24 | `index.php`, appended to a path ending in `/` |
| Handler.Outcome | src/handler.php:27-46 | the four decisions: run the script, serve the file with a content type, 406, 404 |
| Handler.Body | src/handler.php:37 | a reply's body: empty, or the bytes of the named file that `readfile` copies out |
| Handler.Response | src/handler.php:30-46 | the hand-off of the request to a PHP script, or a reply with its status code, headers and body |
| PathInfo.Basename | src/handler.php:28 | the basename holds no `/`; for a path not ending in `/` it is a suffix of the path, preceded by a `/` unless it is the whole path |
| PathInfo.Extension | src/handler.php:28 | the extension is absent exactly when the basename has no dot; when present it holds no dot and no slash, and `.` plus it ends the basename |
| PathInfo.BasenameIgnoresTrailingSlash | src/handler.php:28 | a trailing `/` never changes the basename |
| PathInfo.BasenameOfSegment | src/handler.php:28 | a path without slashes is its own basename |
| PathInfo.BasenameAfterSlash | src/handler.php:28 | the basename of `dir/name` is `name` for every `dir` |
| PathInfo.ExtensionIgnoresDirectories | src/handler.php:28 | dots in directory names never change the extension of `dir/name` |
| PathInfo.ExtensionEndsPath | src/handler.php:28 | for a path not ending in `/`, `.` plus the extension ends the path |
| PathInfo.ExtensionFromSuffix | src/handler.php:28 | a path ending in `.e`, with `e` free of dots and slashes, has extension `e` |
| PathInfo.ExtensionBySuffix | src/handler.php:28 | for a path not ending in `/`, the extension is `e` if and only if the path ends in `.e` and `e` holds neither dot nor slash |
| PathInfo.NoExtensionWithoutDot | src/handler.php:28 | a segment without a dot has no extension |
| Handler.Resolve | src/handler.php:21-25 | the root, and the root joined with the script name, are prefixes of the resolved path, which never ends in `/` |
| Handler.Classify | src/handler.php:30-42 | an existing file is never NotFound; Execute exactly when the extension is `php`; Serve exactly when it is a table key, with that key's content type; Unsupported exactly when it is absent or neither |
| Handler.Dispatch | src/handler.php:27-46 | NotFound exactly when the resolved path is missing; otherwise exactly one of Execute, Serve and Unsupported, each by its own condition on the extension; run and served paths are the resolved path; the content type is the table entry for the extension |
| Handler.Respond | src/handler.php:30-46 | Execute hands the request to the script; Serve gives 200, one `Content-Type` header and the file's bytes; Unsupported gives 406 and NotFound gives 404, both with no header and no body |
| Handler.HandleRequest | src/handler.php:18-46 | 404 exactly when the resolved path is missing; the script runs exactly when the resolved file exists with extension `php`; 200 exactly when it exists with a table extension, and then carries that extension's content type; 406 exactly when it exists with any other extension or none; the run or served file is the resolved path, which exists and starts with the string `/mnt/docroot`; 404 and 406 carry no header and no body |
| Handler.MimeKeysArePlain | src/handler.php:3-12 | no table key holds a dot or a slash, and `php` is not a key |
| Handler.ResolveDirectoryIndex | src/handler.php:21-25 | a script name ending in `/` resolves to root + name + `index.php` |
| Handler.ResolveVerbatim | src/handler.php:21-25 | any other non-empty script name resolves to root + name |
| Handler.ResolveUnderDocumentRoot | src/handler.php:18-25 | under `/mnt/docroot`, `index.php` is appended if and only if the script name ends in `/`, and otherwise the path is root + name |
| Handler.PhpScriptIsExecuted | src/handler.php:30-31 | an existing file named `*.php` is executed, without consulting the table |
| Handler.StaticFileIsServed | src/handler.php:33-37 | an existing file whose extension is a table key is served with exactly that key's content type |
| Handler.UnknownExtensionIsUnsupported | src/handler.php:39-42 | an existing file whose extension is neither `php` nor a table key gets 406 |
| Handler.ExtensionMatchIsCaseSensitive | src/handler.php:30-42 | existing `.PNG` and `.PHP` files get 406 |
| Handler.ExtensionlessIsUnsupported | src/handler.php:27-42 | an existing final segment without a dot gets 406, whatever dots the directories hold; a dot-free directory name given without its trailing slash is one |
| Handler.ExecutedExactlyForPhpNames | src/handler.php:27-31 | for a joined path not ending in `/`, the script runs if and only if the file exists and its path ends in `.php` |
| Handler.JpegSpellingsAgree | src/handler.php:7-8 | `.jpg` and `.jpeg` files are both served as `image/jpeg` |
| Handler.MissingIsNotFound | src/handler.php:44-46 | a missing resolved path gives NotFound and a bare 404, whatever its extension |
| Handler.DirectoryMeansIndex | src/handler.php:23-31 | a request for `dir/` decides exactly as one for `dir/index.php`, and runs that script when it exists |
| Handler.ParentSegmentsAreKept | src/handler.php:21-31 | `/../etc/x.php` is joined verbatim and, when `/mnt/docroot/../etc/x.php` exists, that script is run: no `..` is resolved |
| Handler.DispatchDependsOnResolvedPathOnly | src/handler.php:27 | two filesystems that agree on the resolved path give the same decision |
| Handler.ScenarioStylesheet | src/handler.php:3-37 | an existing `/style.css` gives 200, `Content-Type: text/css` and the file's bytes |
| Handler.ScenarioIndex | src/handler.php:21-31 | `/` with `/mnt/docroot/index.php` present runs that script |
| Handler.ScenarioUnregistered | src/handler.php:39-42 | an existing `/data.json` gives 406 |
| Handler.ScenarioMissing | src/handler.php:44-46 | a missing `/missing.png` gives 404 |

## Left out

- The `require` of the PHP script is not modelled. The model stops at the `Delegated` response, because what the script does lies outside this file.
- `header`, `readfile` and `http_response_code` are not modelled as effects. They appear as the fields of `Reply`: status, headers, and body, where the body names the file rather than holding its bytes.
- The real filesystem is not modelled. Existence is a set of paths, so `file_exists` is assumed to answer the same for the whole request. `chdir` into the root has no effect on the decision and is left out.
- The writes to `$_SERVER` are not modelled. The `HTTPS` flag is plumbing for the WordPress script. The document root is the constant `DocumentRoot`, and `Dispatch` takes the root as a parameter.
- The HTTP gateway fails with status 500 when it returns binary content. That is a limitation of the host, not logic in this file.
- Paths are not normalised: `..` and `//` go through unchanged. The source does no such hardening either.
- `PathInfo.Basename` models only `/` as a separator. PHP on Windows also accepts `\`, and PHP's locale-dependent handling of multibyte characters in `basename` is not modelled.
- `Reply` holds only the status, headers and body the handler itself sets. PHP's diagnostics are not modelled: reading a missing `extension` entry (`src/handler.php:30`, `:33`) raises an "Undefined array key" warning, which can become body output and, sent before `http_response_code(406)`, leave the status at 200. PHP's default headers, such as `Content-Type: text/html` on the 404 and 406 replies, are not modelled either.
- A missing `SCRIPT_NAME` is modelled as an empty script name. PHP concatenates `null` as an empty string.
