# Shutter sensor firmware: verified model of its sequential core

The firmware runs on a Wi-Fi microcontroller. It watches a hall-effect
(open/closed) sensor and reports the sensor's status to an HTTP server as
`POST http://<base>/api/<device id>/<true|false>`. Most of `src/main.rs` is
async plumbing: radio bring-up, the network stack, the HTTP client and GPIO
edge waits. This project models the sequential logic inside it, in Dafny:

- **Device identifier** (`create_id_from_mac`). The 6-byte station MAC is
  copied into a zeroed 8-byte buffer and read as a big-endian `u64`
  (modules `Numeric`, `BigEndian` and `DeviceId`).
- **URL construction** (`build_url`). `write!` formats
  `http://{base_url}/api/{id}/{status}` into a `heapless::String<128>`
  (modules `Decimal` and `UrlBuilder`). Formatting writes the format
  string's pieces in order. The fixed-capacity string refuses a piece that
  does not fit, and formatting stops at the first refusal. A refusal leads
  to a 30 s delay and a software reset, so a partly written URL is never
  returned. Text is modelled as byte sequences; the capacity counts bytes.
- **Reporter loop** (the `loop` in `main`). Each iteration waits up to 5 s
  on the sensor channel, remembers a received level or keeps the old one on
  timeout, derives `status = !bool::from(level)`, builds the URL and
  notifies the server (module `Reporter`). `ReporterRun` chains iterations
  from the level read at start-up. The identifier is computed once and is
  the same in every iteration.
- **Connection supervisor** (the `connection` task). One loop iteration is
  a function from what the driver reports to the list of actions taken:
  wait for disconnect, 5000 ms delay, configure, start, connect, or a panic
  from an unwrapped error (module `Supervisor`). `SupervisorRun` chains
  iterations until one panics.

Facts about the code that shape the model:
- In the identifier, the MAC fills the high six bytes and the low two
  bytes are zero.
- The supervisor keeps no state of its own. It reads the driver's global
  `WifiState` and the controller's `is_started()` answer. An error from
  `is_started()` counts as "not started".
- A failed configure or start is an `unwrap`. It is modelled as a `Panic`
  action that ends the run.
- Whether the URL overflows can depend on the status: `false` is one byte
  longer than `true` (`UrlBuilder.OverflowDependsOnStatus`). With a base of
  the right length, `notify_server` is called with the URL for every
  closed-sensor report, while the first report for an open sensor resets
  the device.
- The whole URL result rests on one property of the fixed-capacity string
  library: appending a piece is all-or-nothing. Its `push_str` appends
  through `extend_from_slice`, which refuses a slice that does not fit and
  writes none of it. `UrlBuilder.PushStr` models that behaviour; it is an
  assumption about library code that is not part of this model.

## Model

| member | source | states |
|---|---|---|
| BigEndian.FromBeBytes | src/main.rs:170 | reading bytes most-significant first gives a value below 256^n for n bytes, so 8 bytes always fit a u64 |
| BigEndian.ToBeBytes | src/main.rs:170 | the n-byte big-endian encoding of a value below 256^n has n bytes and reads back as that value |
| BigEndian.ToBeBytesOfFromBeBytes | src/main.rs:170 | encoding the value of a byte string gives back the same bytes, so the reading loses no information |
| BigEndian.FromBeBytesInjective | src/main.rs:170 | two byte strings of the same length with the same value are equal |
| BigEndian.FromBeBytesIsWeightedSum | src/main.rs:170 | the big-endian reading equals the sum over i of s[i] * 256^(n-1-i) |
| DeviceId.PadMac | src/main.rs:168-169 | the zeroed 8-byte buffer with the MAC copied into its first six bytes is the MAC followed by two zero bytes |
| DeviceId.CreateIdFromMac | src/main.rs:166-173 | the id fits in a u64, is the MAC's value times 65536, has its low two bytes zero, and its big-endian bytes are the MAC then two zeros |
| DeviceId.CreateIdIsPositionalSum | src/main.rs:166-170 | the id is mac[0]*256^7 + mac[1]*256^6 + ... + mac[5]*256^2 |
| DeviceId.CreateIdInjective | src/main.rs:166-170 | two MACs give the same id if and only if they are equal |
| DeviceId.MacOfId | src/main.rs:166-170 | every u64 that is a multiple of 65536 is the id of some MAC |
| DeviceId.MacOfIdRoundTrip | src/main.rs:166-170 | the MAC recovered from a MAC's id is that MAC |
| Decimal.NatToDecimal | src/main.rs:235 | the id renders as a non-empty string of ASCII digits with no leading zero, one digit exactly when the id is below 10 |
| Decimal.DecimalToNatOfNatToDecimal | src/main.rs:235 | parsing the rendered digits gives back the id |
| Decimal.NatToDecimalOfDecimalToNat | src/main.rs:235 | every canonical digit string is the rendering of its value |
| Decimal.NatToDecimalInjective | src/main.rs:235 | distinct ids render as distinct digit strings |
| Decimal.NatToDecimalLength | src/main.rs:235 | the rendering has at most k digits exactly when the value is below 10^k |
| Decimal.U64DecimalLength | src/main.rs:232-235 | a u64 id renders in 1 to 20 digits |
| UrlBuilder.WritePieces | src/main.rs:235 | writing pieces in order succeeds exactly when the whole text fits, and then gives that text; a failed write leaves a proper prefix of the text, within capacity |
| UrlBuilder.UrlPiecesConcat | src/main.rs:235 | the format string's pieces concatenate to http:// + base + /api/ + digits + / + true or false |
| UrlBuilder.BuildUrl | src/main.rs:232-244 | the outcome is the complete URL exactly when it is at most 128 bytes, and never exceeds 128 bytes; otherwise it is a reset after 30000 ms and no URL |
| UrlBuilder.UrlTextLength | src/main.rs:235 | the URL is 13 literal bytes plus the base, the id's digits and 4 or 5 status bytes |
| UrlBuilder.ShortBaseAlwaysFits | src/main.rs:232-235 | a base of at most 90 bytes fits for every u64 id and either status |
| UrlBuilder.LongBaseAlwaysResets | src/main.rs:232-243 | a base longer than 110 bytes always leads to the delayed reset |
| UrlBuilder.OverflowDependsOnStatus | src/main.rs:232-235 | a URL that fits for an open sensor fits for a closed one; a closed-sensor URL of exactly 128 bytes overflows when the sensor is open |
| UrlBuilder.LiteralBytes | src/main.rs:235 | the literal /api/ and the status words true and false are written as their ASCII bytes, listed explicitly |
| UrlBuilder.ExampleUrl | src/main.rs:232-235 | base 10.0.0.5:3000, id 42 and status true give http://10.0.0.5:3000/api/42/true |
| Reporter.SensorStatus | src/main.rs:112-113 | the status is the inverted pin level: Low gives true (closed), High gives false (open) |
| Reporter.ActionFor | src/main.rs:114-115 | the server is notified with the complete URL when it fits, otherwise the device resets after 30000 ms |
| Reporter.ReporterStep | src/main.rs:108-116 | a received level replaces the remembered one and a timeout keeps it; the status is true exactly for Low; the iteration notifies with the exact URL when it fits, else resets |
| Reporter.ReporterRun | src/main.rs:102-116 | one action per iteration; every action before the last is a notification; the run stops early only on a reset |
| Reporter.RunReportsLastDelivered | src/main.rs:102-114 | the k-th report carries the status of the level last delivered by the channel in the first k+1 waits, or of the start-up level |
| Reporter.HeartbeatNeverStops | src/main.rs:108-116 | when the URL fits for an open sensor, every wait, including a timeout, yields exactly one notification and the loop never resets |
| Supervisor.SupervisorStep | src/main.rs:180-206 | an iteration panics exactly when a needed configure or start fails, ending with the panic and no connect; otherwise it makes exactly one connect attempt, with the outcome its inputs give |
| Supervisor.StepWaitsForDisconnect | src/main.rs:181-185 | when connected, the iteration first waits for the disconnect event and then delays 5000 ms; otherwise it never waits for the event |
| Supervisor.StepStartsOnlyWhenNeeded | src/main.rs:186-196 | configure happens exactly when the controller does not answer Ok(true) to is_started; start exactly when, in addition, configure succeeded |
| Supervisor.StepStartsBeforeConnect | src/main.rs:186-199 | configure and start come before the connect attempt in the same iteration |
| Supervisor.StepPanicIsLast | src/main.rs:186-196 | in an iteration whose configure or start fails, the panic is the last action and no earlier action is a panic |
| Supervisor.StepConnectOutcome | src/main.rs:180-206 | the connect outcomes of an iteration are none when it aborts and exactly its input's connect outcome otherwise |
| Supervisor.StepShape | src/main.rs:180-206 | an iteration takes exactly 2 actions for the disconnect wait when connected, 2 for configure and start when needed, and 1 for a successful or 2 for a failed connect; an aborting one ends after configure and (if configure succeeded) start plus the panic; configure always comes before start |
| Supervisor.StepFailureBacksOff | src/main.rs:199-205 | a failed connect is followed by a 5000 ms delay that ends the iteration; a successful connect ends it at once |
| Supervisor.SupervisorRun | src/main.rs:180-206 | a panic ends the connection task: if a run panics, the panic is its last action and no earlier action is a panic |
| Supervisor.RunConnectOutcomes | src/main.rs:180-206 | with no panic, the k-th connect attempt of the run is made in the k-th iteration and has that iteration's outcome, for every k |
| Supervisor.EveryIterationConnects | src/main.rs:180-206 | with no panic, n iterations make exactly n connect attempts whatever the earlier outcomes, so retries are unbounded |
| Supervisor.RunFailuresBackOff | src/main.rs:199-206 | over any number of iterations, every failed connect is immediately followed by the 5000 ms delay |
| Supervisor.RunAbortsOnlyOnStartFailure | src/main.rs:186-196 | a run panics if and only if some iteration's needed configure or start fails |

## Left out

- `notify_server`: the 10 s-bounded POST through the HTTP client. Every outcome is only logged, so the model stops at "notify with this URL".
- `sensor_watcher` and the 8-slot channel: they are async edge waiting and queueing in libraries that are not part of this model. The reporter takes the channel's results as a sequence of wait outcomes. The watcher sends the level it re-reads after the 1 ms debounce delay (src/main.rs:222-226); that is not modelled further.
- `init_for_wifi`, `net_task`, the network stack, DNS and TCP clients: driver and I/O code, including the 500 ms link and DHCP polling.
- Timers, `with_timeout` and `software_reset` are outcome tokens (`Delay`, `TimedOut`, `ResetDevice`), not timing. What happens after a reset or a panic is not modelled.
- The credentials conversion and `set_configuration` are folded into one configure outcome. Their failure conditions live in the driver, which is not part of this model.
- `build.rs`, logging, the heap allocator and the static-cell plumbing: no logic to verify.
- Literal text is encoded one byte per character, and `UrlBuilder.Ascii` accepts only 7-bit characters, for which this is the UTF-8 encoding. Every literal of the format string is 7-bit. The base URL is taken as its UTF-8 bytes, which is how the fixed-capacity string counts length.
