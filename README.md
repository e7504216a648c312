# c-requests: the buffer and string logic of `http.c`

`http.c` offers `http_post` and `http_get`. Both are thin wrappers over libcurl. This project models the code in that file that does its own work on buffers and strings:

- **Request body reader** (`read_callback` over `struct data_to_send`). It is a cursor into the caller's JSON C string. Each call copies as much of the unread body as fits into the transport's buffer of `size * nmemb` bytes, then advances the cursor past what it copied. It returns 0 once the body is exhausted. Modelled as the class `RequestBody.DataToSend` with the method `Read`. The pure function `ReadStep` says what one call does, and `Chunks` says what a series of calls hands out.
- **Response accumulator** (`write_callback` over `struct data_to_store`). It is an append-only buffer that starts as a one-byte allocation holding a NUL. Each call reallocates to `size + realsize + 1` bytes, appends the chunk and writes a new NUL. Modelled as the class `ResponseBuffer.DataToStore` with the method `Write`. The object invariant `Valid()` says the allocation is exactly one byte longer than the stored bytes and that this byte is NUL. Whether `realloc` finds memory is a parameter.
- **URL builder** (shared by `http_post` and `http_get`). A loop advances `path` past its leading `'/'` characters, and `"%s:%u/%s"` formats host, port and the rest of the path. Modelled as the loop method `Url.StripLeadingSlashes`, its specification `Url.Stripped`, the `%u` rendering `Url.Decimal`, and `Url.BuildUrl`.
- **Set-up before the transfer**: `Http.PreparePost` and `Http.PrepareGet` compose the above in the order the two functions run them.

`strlen`, `memcpy` and `realloc` come from the C library. They are modelled by `CString.CStrLen`, `Memory.MemCpy` and `Memory.Realloc`, with the behaviour the C standard gives them.

Files: `cstring.dfy`, `memory.dfy`, `request_body.dfy`, `response_buffer.dfy`, `url.dfy`, `http.dfy`.

`http.c` sets no request headers. The URL is built by `asprintf` into a heap string, so formatting has no length limit.

## Model

| member | source | states |
|---|---|---|
| CString.CStrLen | http.c:91 | `strlen(json)` is the index of the first NUL: the byte there is 0 and every byte before it is not |
| CString.VisibleOfStored | http.c:131 | a C consumer of stored bytes followed by a NUL sees all of them when none is NUL, and otherwise none from the first embedded NUL on |
| Memory.MemCpy | http.c:28 | `memcpy` replaces exactly the `n` bytes at the target offset with the first `n` source bytes and leaves every other byte unchanged |
| Memory.Realloc | http.c:53-59 | `realloc` returns null exactly when no memory is available; otherwise a fresh block of the requested length that keeps the old bytes that fit |
| RequestBody.ReadStep | http.c:19-33 | one call hands out `min(remaining, capacity)` bytes, and these bytes followed by the new unread part are exactly the old unread part |
| RequestBody.ChunksCover | http.c:21-36 | over any series of calls, the chunks handed out in order, followed by what is still unread, are exactly the body: nothing is lost, repeated or reordered |
| RequestBody.UnreadDrained | http.c:21-36 | with buffers of positive capacity, at most one call per byte is needed: after as many calls as the body has bytes nothing is unread |
| RequestBody.LateChunksEmpty | http.c:21-36 | with buffers of positive capacity, every call made after as many calls as the body has bytes returns 0 |
| RequestBody.ReaderDrainsBody | http.c:13-37 | with buffers of positive capacity, the chunks concatenate to the whole body and the reader then returns 0 on every later call |
| RequestBody.SentBeforeEmptyChunk | http.c:21-36 | with buffers of positive capacity, a call returns 0 only once the body is drained: the chunks before any call that returns 0 are exactly the body |
| RequestBody.PostBodyDelivered | http.c:119 | the bytes delivered add up to the first `strlen(json)` bytes of the caller's string, which is the length declared as the POST size; the call after them returns 0; and whichever call first returns 0, the chunks before it are that same body |
| RequestBody.DataToSend.constructor | http.c:88-91 | the cursor starts at the beginning of `json` with `strlen(json)` bytes to send, and the unread part is the C string's contents |
| RequestBody.DataToSend.Read | http.c:13-37 | returns `min(data->size, size*nmemb)`; the first that many bytes of `dest` are the next bytes of the body and the rest of `dest` is untouched; the cursor advances and `size` shrinks by the count; the result agrees with `ReadStep`, so it is 0 when the body is exhausted or the buffer has no room, and then nothing changes |
| ResponseBuffer.DataToStore.constructor | http.c:81-86 | the buffer starts as a one-byte allocation holding only the NUL, with nothing stored |
| ResponseBuffer.DataToStore.Write | http.c:44-68 | with memory: returns `size*nmemb`, the contents become the old contents followed by the chunk, and the NUL sits at index `size` of an allocation of `size + 1` bytes; without memory: returns 0 and the allocation, `size` and contents are unchanged |
| ResponseBuffer.DataToStore.Returned | http.c:131 | what `strdup(response.data)` returns is exactly the stored bytes before the first NUL: a prefix of the response holding no NUL, followed in the buffer by a NUL or the end of the response, so it is the whole response exactly when the response holds no NUL byte |
| Url.Decimal | http.c:103 | `%u` prints at least one digit and only digits, with a leading `0` exactly when the port is 0 |
| Url.DecimalRoundTrip | http.c:103 | the digits printed for the port read back as the port |
| Url.DecimalLengthBound | http.c:103 | a number below `10^k` prints in at most `k` digits |
| Url.PortDigits | http.c:103 | an `unsigned` port prints in one to ten digits |
| Url.Stripped | http.c:101 | the stripped path is a suffix of the path, everything removed was a `'/'`, and it does not start with `'/'`; interior slashes stay |
| Url.StrippedCharacterized | http.c:101 | a suffix of the path is the stripped path exactly when everything before it is `'/'` and it does not start with `'/'` (both directions) |
| Url.StripLeadingSlashes | http.c:101 | the loop stops at the first character that is not `'/'` or at the end, having skipped only slashes, and what is left is `Stripped(path)` |
| Url.BuildUrl | http.c:101-103 | the URL is `host + ":" + decimal(port) + "/" + Stripped(path)` |
| Url.UrlParts | http.c:103 | the URL splits back into host, `':'`, the port's digits, `'/'`, and the stripped path, and the character after that `'/'` is never another `'/'` from the path |
| Url.UrlPort | http.c:103 | the digits between the host's `':'` and the path's `'/'` read back as the port |
| Url.LeadingSlashesIrrelevant | http.c:166-168 | prefixing the path with any number of slashes gives the same URL |
| Http.PreparePost | http.c:81-119 | `http_post` starts with an empty NUL-terminated response buffer, a body cursor over the C string `json`, a declared POST size equal to `strlen(json)`, and the URL `BuildUrl` specifies |
| Http.PrepareGet | http.c:150-168 | `http_get` starts with an empty NUL-terminated response buffer and the URL `BuildUrl` specifies |

## Left out

- libcurl: `curl_global_init`, `curl_easy_init`, `curl_easy_setopt`, `curl_easy_perform` and the cleanups (http.c:93-99, 109-137, 158-164, 174-198). These are calls into a foreign library that does network I/O. The series of buffer capacities offered to the reader and the chunks offered to the writer are parameters of the model. The abort libcurl performs when the writer returns less than it was offered is not modelled.
- The `fprintf`/`strerror` diagnostics on standard error. They have no functional effect.
- `main` (http.c:201-209). It is a demonstration that calls a live server.
- The `asprintf` failure branch (http.c:103-107, 168-172). Formatting is treated as total.
- Allocation ownership. The leaks of `url`, of `response.data` after `strdup`, and of `response.data` on the early `-1` returns are not modelled. `strdup` itself is modelled only by the read-only view `DataToStore.Returned`. Its own allocation failure is not modelled.
- Machine-word arithmetic. `size * nmemb` and `data->size + realsize + 1` are unbounded naturals, so the wrap-around of `size_t` is not modelled.
- Memory.Realloc: when memory is available it always returns a fresh block. C may also grow the block in place and return the same pointer; that makes no difference to the bytes.
- The initial `malloc(1)` of the response buffer (http.c:83, 152) is assumed to succeed. The source does not check its result, so on failure `response.data[0] = 0` would write through a null pointer; the constructor of `DataToStore` always succeeds.
- Host and path are modelled as the characters of their C strings before the terminator, so they hold no NUL. `%s` would stop at the first NUL; the model does not represent strings that carry one.
