# sbor.py core logic in Dafny

`sbor.py` collects facts about the local machine (system, CPU, memory,
disks, network interfaces), prints them and saves them as a JSON snapshot.
Almost all of it is operating-system querying and output. This project models
the pure logic inside it and proves what that logic does:

- **Size formatter** (`correct_size`, module `SizeFormat`). A byte count below
  1024 is shown as whole bytes (`"0 B"`, `"1023 B"`). A larger count is
  divided by 1024 step by step through the prefixes K, M, G, T, P. The first
  quotient below 1024 is shown with two decimals, the prefix and the ending
  `iB`. The unit choice uses exact arithmetic: the byte count is a `nat` and
  the quotient is a `real`. The two-decimal rendering of a real is not
  modelled; it is passed in as the function parameter `fixed2`.
  When no prefix fits, the loop has already divided once more before it falls
  through. So a count of at least 1024^6 is labelled `PiB` but shows
  n / 1024^6, not n / 1024^5: 1024^6 bytes are shown as 1 PiB, although a
  value labelled P would be expected to be n / 1024^5. The model follows the
  code and proves the code's behaviour (`SizeFormat.CorrectSizeBeyondTop`).
- **Network-interface records** (module `Network`). Each interface except
  `Loopback Pseudo-Interface 1` gets a record `{mac, ipv4, ipv6}`. Every field
  starts as `"N/A"`. Addresses are visited in order and classified by family:
  - a link-layer address has `-` replaced by `:`;
  - an IPv4 address is kept as it is;
  - an IPv6 address is cut at its first `%`, which drops the zone index;
  - other families are ignored.
  Within a family the last address wins. Across interfaces a later name
  replaces an earlier one.
- **Disk map** (module `Disks`). Each partition comes with the outcome of
  its usage query.
  - A partition refused for lack of permission is skipped.
  - A query that fails for any other reason ends the loop. In the source this
    is the outer `except` around the loop, and the entries gathered so far
    are kept.
  - Every measured partition is keyed by its device, and a later partition
    on the same device wins.
- **Snapshot file name** (module `Snapshot`). The name is
  `system_info_<node>.json`, where every space of the node name becomes an
  underscore.

Module `Strings` holds the string rewrites these use. These are single-character
replacement (`str.replace`), the first field of a split (`str.split(c)[0]`)
and decimal numerals (`f"{n}"`). Each one is proved against an independent
characterisation or an inverse.

The operating-system queries (`psutil`, `platform.uname`, `socket`) are not
modelled. Their results are inputs: the partition list with usage outcomes,
the interface table with tagged addresses, and the node name.

## Model

| member | source | states |
|---|---|---|
| `SizeFormat.CorrectSize` | sbor.py:14-25 | The whole-bytes case is taken exactly when the count is below 1024, and it keeps the count. Otherwise the unit is one of K..P and the quotient is at least 1; below the top prefix it is also below 1024. |
| `SizeFormat.Scan` | sbor.py:20-25 | Walking on from a quotient of at least 1 always ends in a scaled result. The quotient stays at least 1 and never grows. It is below 1024 unless the top prefix is reached. |
| `SizeFormat.ScanStopsAt` | sbor.py:21-24 | Between 1024^k and 1024^(k+1), the walk from any earlier step stops exactly at step k with the quotient n / 1024^k. |
| `SizeFormat.ScanPassesAll` | sbor.py:21-25 | From 1024^6 on, the walk passes every prefix and keeps the quotient n / 1024^6. |
| `SizeFormat.CorrectSizeBytes` | sbor.py:17-23 | Counts below 1024, zero included, take the whole-bytes branch with the count itself. |
| `SizeFormat.CorrectSizeUnit` | sbor.py:20-24 | For 1024^k <= n < 1024^(k+1) with k in 1..5, the unit is prefix k and the value is n / 1024^k, which lies in [1, 1024). |
| `SizeFormat.CorrectSizeBeyondTop` | sbor.py:21-25 | For n >= 1024^6 the label is still P, but the value is n / 1024^6. That is one division more than n / 1024^5. |
| `SizeFormat.MagnitudeExists` | sbor.py:21-25 | Every count of at least 1024 falls under one of the prefix ranges or is beyond the top, so the three lemmas above cover all inputs. |
| `SizeFormat.FormatSize` | sbor.py:14-25 | 0 gives "0 B". A count below 1024 gives its decimal numeral plus " B", with no '.' and no ending. Larger counts give the rendered quotient, a prefix in K..P and the ending. |
| `SizeFormat.FormatSizeUnit` | sbor.py:21-24 | The text for a count between 1024^k and 1024^(k+1) is the rendered n / 1024^k, a space, prefix k and the ending (e.g. "KiB"). |
| `SizeFormat.FormatSizeBeyondTop` | sbor.py:24-25 | The text for a count of at least 1024^6 is the rendered n / 1024^6 followed by " P" and the ending. |
| `SizeFormat.FormatSizeByteExamples` | sbor.py:17-23 | 0 is shown as "0 B" and 1023 as "1023 B". |
| `SizeFormat.FormatSizeKibExample` | sbor.py:21-23 | 1024 bytes are shown as the rendered 1.0 followed by " KiB". |
| `SizeFormat.FormatSizeHalfKibExample` | sbor.py:21-23 | 1536 bytes are shown as the rendered 1.5 followed by " KiB". |
| `SizeFormat.FormatSizeGibExample` | sbor.py:21-24 | 1024^3 bytes are shown as the rendered 1.0 followed by " GiB". |
| `SizeFormat.FormatSizeTopExample` | sbor.py:24-25 | 1024^6 bytes are shown as the rendered 1.0 followed by " PiB". |
| `Strings.NatToDecimal` | sbor.py:23 | The whole-bytes numeral is non-empty and all digits. It starts with '0' only for zero, and zero is "0". |
| `Strings.DecimalRoundTrip` | sbor.py:23 | Reading the numeral back gives the byte count, so the whole-bytes text names the count exactly. |
| `Strings.Replace` | sbor.py:98 | Replacement keeps the length. Each character becomes the new one if it was the replaced one and is kept otherwise, and the replaced character no longer occurs. |
| `Strings.ReplaceRoundTrip` | sbor.py:152 | When the new character did not occur in the text, replacing back restores the original. |
| `Strings.BeforeFirst` | sbor.py:102 | The first field of a split is a prefix of the input without the separator. It ends at the first separator or at the end of the input. |
| `Strings.BeforeFirstOfJoined` | sbor.py:102 | Splitting `a + "%" + zone` keeps exactly `a` when `a` holds no '%'. |
| `Strings.BeforeFirstIdempotent` | sbor.py:102 | Stripping a zone index from an already stripped address changes nothing. |
| `Network.Normalize` | sbor.py:97-102 | A stored MAC has the input's length, with every '-' turned into ':' and every other character in place, so it holds no '-'. A stored IPv6 address is a prefix of the input without '%' that stops at the first '%'. IPv4 is stored verbatim. |
| `Network.Record` | sbor.py:96-102 | One address overwrites the field of its own family with the normalized address and leaves the other two fields as they were. An address of another family changes nothing. |
| `Network.BuildInterface` | sbor.py:94-102 | After the address loop, the MAC field never holds '-' and the IPv6 field never holds '%', whatever the addresses. |
| `Network.FieldWithoutFamily` | sbor.py:94-102 | A field whose family has no address in the interface's list stays "N/A". |
| `Network.LastAddressWins` | sbor.py:96-102 | A field holds the normalized address of the last address of its family; earlier addresses of that family and addresses of other families do not affect it. |
| `Network.OnlyIpv4` | sbor.py:94-100 | An interface with only an IPv4 address reports "N/A" for MAC and IPv6. |
| `Network.IgnoredFamilyIsInvisible` | sbor.py:96-102 | Removing an address of an ignored family from anywhere in the list leaves the record unchanged. |
| `Network.CollectNetwork` | sbor.py:88-104 | The loopback pseudo-interface is never a key. The keys are exactly the other interface names. Each holds the record built from the addresses of the last interface with that name. |
| `Disks.Reached` | sbor.py:70-85 | The loop visits exactly the partitions before the first query that failed with an error other than a permission refusal. |
| `Disks.ReachedStopsAtFailure` | sbor.py:70-85 | Whatever follows a failed query, the loop visits the same partitions. |
| `Disks.Entry` | sbor.py:74-80 | The entry keeps the partition's file system type and the used percentage followed by '%'. Each of total, used and free is whole bytes exactly when its count is below 1024, and then holds that count. |
| `Disks.EntryText` | sbor.py:76-78 | Rendering the entry's total, used and free gives exactly the texts `correct_size` returns for the partition's three byte counts. |
| `Disks.CollectDisks` | sbor.py:69-83 | The keys are exactly the devices of measured partitions before the first failure. Each holds the entry of the last such partition on that device. |
| `Disks.DeniedPartitionAbsent` | sbor.py:81-83 | A permission-refused partition whose device no measured partition shares is absent from the disk map. |
| `Snapshot.SanitizeNode` | sbor.py:152 | The sanitized node name has the node's length and no space. Spaces become '_' and every other character stays in place. |
| `Snapshot.OutputFileName` | sbor.py:152 | The file name is "system_info_", then the sanitized node name, then ".json". Its length is the node's plus 17, and it contains no space. |
| `Snapshot.NodeWithoutSpaces` | sbor.py:152 | A node name without spaces appears in the file name unchanged. |
| `Snapshot.SanitizeIdempotent` | sbor.py:152 | Sanitizing a sanitized node name changes nothing. |
| `Snapshot.NodeRecoverable` | sbor.py:152 | For a node name without '_', turning the middle part's underscores back into spaces recovers the node name. |
| `Snapshot.SpaceAndUnderscoreCollide` | sbor.py:152 | Two node names that differ only by space versus underscore get the same file name. |

## Left out

- Operating-system queries (`psutil.disk_partitions`, `disk_usage`, `net_if_addrs`, `cpu_freq`, `virtual_memory`, `platform.uname`) are foreign calls. Their results are inputs to the model.
- The system, CPU and memory sections of `creating_file` (sbor.py:35-66) are not modelled, since each reads operating-system queries. They hold three behaviours the model does not cover:
  - the `os` text joins the system name and the release with a space (sbor.py:38);
  - `max_frequency` is the two-decimal frequency followed by " МГц", or "N/A" when no frequency is reported (sbor.py:52);
  - each section has its own `try` (sbor.py:42-43, 54-55, 65-66), so a failed query drops that section from the record and the rest of the report is still collected.
- Logging setup and log calls (sbor.py:8-12 and every `logging.*` call) are side effects only.
- JSON writing, `print_info` and every console message (sbor.py:112-143, sbor.py:154-158) are output only.
- The supported-OS check and the top-level exception handling in `main` (sbor.py:146-164) are control plumbing around the modelled pieces.
- SizeFormat.FormatSize: the `.2f` text of a real is the parameter `fixed2`. Binary floating-point formatting is not modelled.
- SizeFormat.CorrectSize: the source divides in binary floating point, and the model divides exactly. The first division `n / 1024` rounds to the nearest double, and the later divisions by 1024 are exact. So the shown quotient differs from the model's exact n / 1024^k by that first rounding, which can be non-zero only above 2^53 bytes (for n = 2^53 + 1 the source's first quotient is exactly 2^43, the model's is 2^43 + 2^-10).
- SizeFormat.CorrectSize: the walk differs from the model only where the rounded quotient reaches exactly 1024.0 at the P step. By IEEE round-to-nearest-even this is the case for counts in [2^60 - 64, 2^60). There the source's walk stops one step later. The label is P either way, but the source shows a quotient 1024 times smaller: 1.0 instead of the model's n / 1024^5, which is just below 1024.
- SizeFormat.CorrectSize: the `except Exception` path returning "N/A" (sbor.py:26-28) is not modelled. With a non-negative integer it arises only when the first quotient exceeds the largest double, above about 1.8e311 bytes.
- SizeFormat.CorrectSize: negative counts cannot occur, since the byte count is a `nat`. The operating system never reports negative sizes.
- Disks.Entry: the entry keeps the three sizes as the formatter's unit choice (`SizeFormat.Size`) rather than the text `correct_size` returns; `Disks.EntryText` shows that rendering them gives that text. The text itself depends on the unmodelled two-decimal rendering.
- Disks: the usage percentage is kept as the text the operating system reports. The float-to-text rendering of `usage.percent` is not modelled.
- Disks: a failure of the partition enumeration itself leaves an empty disk map. In the model that is the same as an empty partition list.
- Network: the per-interface `except` (sbor.py:105-106) cannot fire with typed string addresses, so it is not modelled. A failure of the interface enumeration itself leaves an empty network map, which is the same as an empty interface table.
- Network: the source's interface table is a dictionary, so names are distinct. The model accepts any sequence and lets the last interface of a name win, which coincides with the source on distinct names.
- Disks, Network: the source's dictionaries keep insertion order. A device or interface name seen again keeps its first position and takes the later value, and that order decides the layout of the JSON file and the console listing. A Dafny `map` has no order, so the key order of the disk and network maps is not modelled.
- Network: addresses carry only family and text. Netmask, broadcast and point-to-point fields are never read by the source.
