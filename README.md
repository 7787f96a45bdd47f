# gocurr/proxy in Dafny

A model of the sequential core of `gocurr/proxy`, a named TCP forwarder with a
registry of forwarders. The model covers four things:

- **Address normalisation** (`portCheck`, `reAddr`). A bare port such as
  `"3307"` becomes `"127.0.0.1:3307"`. A `host:port` string is returned
  unchanged once its port checks out. More colons are rejected. The
  `strconv.Atoi` and `strings.Split` behaviour these rely on is modelled too.
- **The constructor** (`New`). It checks local, then remote, then the timeout,
  and builds an idle proxy.
- **The lifecycle guards of a proxy.** These are `Run` and `Stop` on its
  `running` flag.
- **The copy loop `hijack`.** It copies one direction of a relayed connection
  through a 32 KiB buffer.

It also covers the `Manager` registry: `add`, `Add`, `remove`, `Remove`,
`Details` and `Exists`, with the `Detail` snapshot.

Files, one module each:

- `errors.dfy`: the error values and `Option`/`Result`.
- `strings.dfy`: `Split` and `Join` for a one-character separator.
- `strconv.dfy`: `Atoi`.
- `address.dfy`: `PortCheck`, `ReAddr`, and the IPv4 pattern as written.
- `proxy.dfy`: `New`, and the class `Proxy` with `Run` and `Stop`.
- `hijack.dfy`: the copy loop over scripted reads and writes.
- `manager.dfy`: the class `Manager`.

Modelling choices:

- Sockets are parameters. `Run` receives the outcome of binding the local
  address.
- `hijack` receives its source as a list of `(chunk, err)` answers of `Read`,
  one per call. It receives its destination as a list of `(n, err)` answers
  of `Write`.
- The copy loop is an imperative method over an `array` buffer. It is proved
  equal to the reference function `Copy`, and the lemmas about `Copy` state
  what reaches the destination and which error is returned.
- The registry is a class with a `map<string, Proxy>` field. Its methods are
  specified through the abstract map `Entries()`, which sends each name to its
  `Detail` snapshot.

The two files disagree about `New`:

- manager.go:26 calls it with `logger` before `failFast` and uses one result.
- proxy.go:76 returns `(*Proxy, error)`.

The model follows proxy.go. `Add` returns `New`'s error without touching the
registry, and the timeout and `failFast` are `Add`'s own parameters, as in
manager.go:22.

## Model

| member | source | states |
|---|---|---|
| Strconv.AtoiSpec | proxy.go:42 | Atoi succeeds exactly on an optional sign plus at least one digit whose value fits in 64 bits, and returns that value. Every failure is a NumError carrying the input. An integer out of int64 range is a range error. |
| Address.PortCheck | proxy.go:41-50 | No error exactly for integer text in [0, 65535]. errPort exactly for a 64-bit integer outside that range. Otherwise Atoi's NumError, distinct from errPort. |
| Address.IpPatternMatches | proxy.go:33-34 | The IPv4 pattern as written, with '/' before the start-of-text anchor, matches no host. |
| Address.BarePort | proxy.go:52-61 | A colon-free string becomes "127.0.0.1:" + s, keeping its text, exactly when it is a valid port. Otherwise it fails with portCheck's error. |
| Address.HostPort | proxy.go:63-75 | host + ":" + port is returned unchanged exactly when port is valid, whatever the host (an empty host included). Otherwise portCheck's error for the port. |
| Address.ManyColons | proxy.go:53-65 | Two or more colons give errAddr. |
| Address.ReAddrErrors | proxy.go:52-75 | reAddr fails only with a NumError, errPort or errAddr, never with errIp. |
| Address.ReAddrShape | proxy.go:52-75 | A normalised address has exactly one colon, and the text after it is a valid port. |
| Address.ReAddrIdempotent | proxy.go:52-75 | Normalising a normalised address gives it back unchanged. |
| Address.ExampleBarePort | proxy.go:55-60 | "3307" normalises to "127.0.0.1:3307". |
| Address.ExamplePortRange | proxy.go:46-48 | "999999" is errPort. |
| Address.ExampleTwoColons | proxy.go:63-65 | "a:1:2" is errAddr. |
| Address.ExampleSignedPorts | proxy.go:41-60 | "+80" becomes "127.0.0.1:+80" and ":-0" is kept, both with their original text. |
| Address.ExampleNamedPort | proxy.go:71-73 | "localhost:http" fails with Atoi's syntax error for "http". |
| Proxy.NewLocalFirst | proxy.go:77-80 | A bad local address is New's error, whatever the remote and the timeout. |
| Proxy.NewRemoteSecond | proxy.go:82-85 | With a good local address, a bad remote is New's error, whatever the timeout. |
| Proxy.NewTimeout | proxy.go:87-89 | New gives errTimeout if and only if both addresses are valid and the timeout is not positive. |
| Proxy.NewSuccess | proxy.go:76-102 | New succeeds if and only if both addresses are valid and the timeout is positive. The record then holds the normalised addresses, and each of them normalises to itself. |
| Proxy.Proxy.constructor | proxy.go:91-101 | The new proxy holds the configuration and is not running. |
| Proxy.Proxy.Run | proxy.go:124-169 | On a running proxy: the "already running" error, still running. Otherwise: the bind's error, and running exactly when the bind succeeded. |
| Proxy.Proxy.Stop | proxy.go:104-143 | On an idle proxy: the "already done" error. Otherwise: nil. Either way the proxy ends not running. |
| Hijack.WriteVerdict | proxy.go:223-237 | A write error wins. Otherwise a count outside [0, nr] is errInvalidWrite and a short count is io.ErrShortWrite. The loop goes on exactly when there is no error and the count is nr. |
| Hijack.ReadVerdict | proxy.go:239-243 | io.EOF ends the loop with nil. Any other read error is returned. |
| Hijack.Write | proxy.go:223-237 | The write step returns WriteVerdict's answer. |
| Hijack.Read | proxy.go:219 | The read fills buf[0:nr] with the chunk and returns its length and error. |
| Hijack.Hijack | proxy.go:216-247 | The loop returns the error and hands Write the chunks that the reference definition Copy gives. |
| Hijack.CopyStopsAt | proxy.go:216-247 | Suppose the loop goes on past reads 0..k-1 and read k stops it. Write then received exactly the non-empty chunks of reads 0..k, including one that came with an error. The result is the failed write's verdict if there is one, otherwise the read's verdict. |
| Hijack.CopyFullWrites | proxy.go:216-247 | When every write is full, the loop runs to the first read error. It forwards every non-empty chunk up to and including that read, and returns nil for io.EOF or the error itself. |
| Hijack.CopyBytesPrefix | proxy.go:219-223 | The bytes handed to dst are a prefix, in order, of the bytes read from src. |
| Manager.Manager.constructor | manager.go:15-20 | NewManager: an empty registry. |
| Manager.Manager.Exists | manager.go:87-90 | True exactly when the name is registered; reads only. |
| Manager.Manager.AddEntry | manager.go:34-42 | A present name: "exists" error and the map unchanged. A fresh name: mapped to the proxy, every other entry unchanged. |
| Manager.Manager.Register | manager.go:27-31 | A duplicate name returns before Run. Otherwise the new idle proxy is inserted and then run: the entry stays registered, running exactly when the bind succeeded, and the bind's error is returned. |
| Manager.Manager.Add | manager.go:22-32 | New's error leaves the registry unchanged. A duplicate name is an error with the registry unchanged. A fresh name gains a new entry with New's addresses and nothing else changes. |
| Manager.Manager.RemoveEntry | manager.go:53-61 | An absent name: "does not exist" error and the map unchanged. A present name: exactly that key deleted. |
| Manager.Manager.Remove | manager.go:44-51 | The named proxy is stopped and its entry deleted. Every other entry, including its running flag, is unchanged. |
| Manager.Manager.Details | manager.go:70-85 | One snapshot per entry: as many as entries, names exactly the key set, each with that entry's addresses and running flag. The map is not modified. |
| Manager.AddRemoveCycles | manager_test.go:16-40 | Repeated Add and Remove of one name with a free port: each Add succeeds and the name exists, each Remove succeeds and it no longer exists. The registry ends as it began. |

## Left out

- Sockets are not modelled: `net.Dial`, `net.DialTimeout`, `net.Listen`, `ln.Accept` and the connection plumbing of `proxy`. `Run` takes the bind's outcome as a parameter.
- Goroutines and channels are not modelled (`notifyDone`, `done`, `burst`, `errChan`). The `burst` handshake becomes `Run`'s returned result.
- `run` never sends on `burst` when `failFast` is set and the remote is unreachable, so `Run` blocks forever. This hang is a concurrency defect and is not modelled.
- Proxy.Proxy.Stop: the connect-until-refused polling loop is not modelled, since it depends only on socket state. `Stop` ends with the proxy stopped, standing for doRun's later `running = false` once the accept loop reports done. The model does not capture the window in which `Stop` has returned but `running` is still true.
- `sync.Mutex` and `sync.RWMutex` are not modelled: every method is one atomic step.
- Manager.Manager.Remove requires the name to be registered. For an absent name the source calls `Stop` on a nil proxy, which panics.
- Hijack.Hijack requires the read script to end with an error. A source that never reports one keeps the real loop running forever.
- Hijack.Hijack requires at least as many write answers as reads.
- The `Infof` payload tracing inside `hijack` and the logger (logger.go) are not modelled.
- http.go, main and the test files other than the manager cycle are not modelled. They are HTTP and socket plumbing.
- Proxy.New does not model the logger argument or the channels of the returned record.
- `time.Duration` is an unbounded integer of nanoseconds. Only its sign matters to `New`.
- Addresses are `seq<char>`. Multi-byte UTF-8 text is not modelled, since ports and separators are ASCII.
