# What is My IP Address — a Dafny model of its decision logic

`get_ip.py` prints the caller's public IPv4 address and, when it can, the
location, organization, timezone and hostname the lookup service reports for
it. Almost all of it is network I/O. What remains, and what this project
models and proves things about, is:

- the **address acceptance rule**: a 200 response's text is stripped of
  surrounding whitespace and accepted when it contains a dot and splits on
  `'.'` into exactly four pieces — nothing is checked about the pieces;
- the **fallback scan** of `get_public_ip`: five echo services are requested
  in a fixed order, every failure is swallowed, and the first accepted
  address is returned at once, or `None` when none qualifies;
- the **details lookup** of `get_ip_details`: the decoded JSON object of a
  200 response, or the empty map for anything else;
- the **report** of `main`: which lines are printed and the exit status.

The network is a parameter: a total function `fetch: string -> Outcome`
from a URL to what one `requests.get` of it gives — `Failure` (it raised) or
`Response(status, text, json)`, where `json` is the decoded object or `None`
when the body is not a JSON object. The methods also return the URLs they
requested, in order, so that "later endpoints are never consulted" and "no
details lookup without an address" are statements about that trace.

Files:

- `pystr.dfy` (module `PyStr`): Python's `str.strip()`, `str.split(sep)`,
  `str.count(c)` and `sep.join(...)` on `seq<char>`, with their laws.
- `wrappers.dfy` (module `Wrappers`): `Option`.
- `get_ip.dfy` (module `GetIp`): outcomes, the rule, the scan (`GetPublicIp`,
  a method with the source's loop and early return, specified by the
  function `FirstSome(Candidates(...))`), the details lookup, the report
  (`Present`, a pure function of the address and the details) and `Run`,
  which sequences them as `main` does.

The validation is kept as loose as the source has it: `"a.b.c.d"` and
`"..."` are accepted, and the model proves that the rule is exactly "three
dots".

Where the program's description and the code differ, the model follows the
code: the description speaks only of splitting into four components, the
code also tests `'.' in ip`; the model keeps the test and proves it adds
nothing (`GetIp.LooksLikeAddressIffThreeDots`).

## Model

| member | source | states |
|---|---|---|
| PyStr.StripLeftSuffix | get_ip.py:33 | the left strip keeps a suffix, drops only whitespace and leaves no leading whitespace |
| PyStr.StripRightPrefix | get_ip.py:33 | the right strip keeps a prefix, drops only whitespace and leaves no trailing whitespace |
| PyStr.StripDecomposes | get_ip.py:33 | the stripped text has no whitespace at either end and the original is whitespace + it + whitespace |
| PyStr.StripPadded | get_ip.py:33 | stripping a whitespace-padded string with no edge whitespace gives exactly that string (uniqueness of the strip) |
| PyStr.StripIdempotent | get_ip.py:33 | stripping twice is stripping once |
| PyStr.CountZero | get_ip.py:35 | the dot count is zero exactly when there is no dot (the `'.' in ip` test) |
| PyStr.SplitLength | get_ip.py:35 | `split` yields one more piece than there are separators |
| PyStr.SplitPiecesFree | get_ip.py:35 | no piece of a split contains the separator |
| PyStr.SplitJoin | get_ip.py:35 | joining the pieces with the separator gives the string back |
| GetIp.LooksLikeAddressIffThreeDots | get_ip.py:35 | the rule holds exactly for strings with three dots; the `'.' in ip` test is redundant and no digit or range check exists |
| GetIp.AcceptedPieces | get_ip.py:35 | an accepted string is four dot-free pieces joined by dots |
| GetIp.AcceptedMeans | get_ip.py:32-36 | a response yields an address exactly when it is 200 and its stripped text has three dots; the address is the text minus surrounding whitespace, non-empty, trimmed |
| GetIp.AcceptedPadded | get_ip.py:32-36 | a whitespace-padded address yields that address for status 200 with three dots, and nothing otherwise |
| GetIp.AcceptedTrailingNewline | get_ip.py:33-36 | `"8.8.8.8\n"` yields `"8.8.8.8"` |
| GetIp.AcceptedNonNumeric | get_ip.py:35 | `"a.b.c.d"` is accepted (no numeric check) |
| GetIp.AcceptedDotsOnly | get_ip.py:35 | `"..."` is accepted |
| GetIp.RejectedIpv6 | get_ip.py:35 | `"2001:db8::1"` (no dot) is rejected |
| GetIp.RejectedTwoDots | get_ip.py:35 | `"1.2.3"` is rejected |
| GetIp.RejectedFourDots | get_ip.py:35 | `"...."` is rejected |
| GetIp.FirstSomePicksFirst | get_ip.py:29-36 | the first present candidate is the result, whatever follows it |
| GetIp.FirstSomeNone | get_ip.py:29-40 | the scan finds nothing exactly when no candidate is present |
| GetIp.FirstSomeFound | get_ip.py:29-36 | a found result sits at a position preceded only by rejected ones |
| GetIp.FirstSomeAppend | get_ip.py:29-40 | scanning a concatenation: a result of the front wins, otherwise the back decides |
| GetIp.CandidatesAppend | get_ip.py:29-31 | the candidates of a concatenated URL list are the concatenated candidates |
| GetIp.ScanIgnoresLater | get_ip.py:29-36 | two networks that agree up to the first accepted endpoint give the same address: endpoints after it do not matter |
| GetIp.ScanSkipsRejected | get_ip.py:30-38 | failed, non-200 and rule-failing endpoints are skipped: the scan continues with the rest |
| GetIp.FoundAddressShape | get_ip.py:33-36 | any address found is non-empty, trimmed, has three dots and is the stripped text of some 200 response |
| GetIp.GetPublicIp | get_ip.py:13-40 | returns the first accepted address in list order or `None`; requests a prefix of the list ending at the winner; every earlier endpoint was rejected; with `None` all were requested and all rejected |
| GetIp.DetailsOf | get_ip.py:53-60 | only a 200 response with a JSON object yields details, exactly that object; failures, other statuses and undecodable bodies yield the empty map |
| GetIp.Present | get_ip.py:72-75 | exit status 1 exactly when there is no address, 0 otherwise |
| GetIp.PresentFrame | get_ip.py:65-77 | without an address only the banner and the error are printed; with one, the address follows the banner and the success line is last |
| GetIp.PresentError | get_ip.py:72-75 | the error lines appear exactly when there is no address |
| GetIp.PresentDetailsHeading | get_ip.py:83-85 | the details section appears exactly for an address and a non-empty map |
| GetIp.PresentSectionLine | get_ip.py:83-98 | detail lines appear in the report exactly when an address was found and they are in the section |
| GetIp.PresentLocation | get_ip.py:87-89 | the location line appears exactly when city, region and country are all present, reading "city, region, country" |
| GetIp.PresentOrganization | get_ip.py:91-92 | the organization line appears exactly when `org` is present, with its value |
| GetIp.PresentTimezone | get_ip.py:94-95 | the timezone line appears exactly when `timezone` is present, with its value |
| GetIp.PresentHostname | get_ip.py:97-98 | the hostname line appears exactly when `hostname` is present, with its value |
| GetIp.PresentExample | get_ip.py:87-92 | the Seattle/WA/US/ACME answer gives the line "Seattle, WA, US", the organization "ACME" and exit 0 |
| GetIp.PresentWithoutDetails | get_ip.py:53-60 | a failed, non-200 or undecodable details lookup still prints the address, exits 0 and prints no details section |
| GetIp.Run | get_ip.py:63-100 | the report is that of the first accepted address and its details; exit 1 exactly when none is found; without an address only the five echo services were requested; with one, the details URL is requested last, once |

## Left out

- HTTP itself, the real behaviour of the five services and of the lookup
  service, and the 5-second timeout: the network is the parameter `fetch`,
  and a timeout is one more `Failure`.
- `fetch` gives an outcome per URL; every URL is requested at most once per
  run (the details URL ends in `/json`, no echo URL does), so this loses
  nothing about a single run.
- `response.json()`: the decoded body is given as `Option<map<string, string>>`.
  A body that is JSON but not an object (a list, say), and values that are
  not strings, are not modelled. A decoding error is treated as caught, as
  it is when the decoding error is a `requests.RequestException` (recent
  versions of `requests`); older versions would let it escape.
- Exceptions other than those of `requests` are not modelled; every failure
  of a request is `Failure`.
- The text of the printed lines, the emoji and the banners: the lines are
  the values of the `Line` datatype, with the address and field values they
  carry. `print` and `sys.exit` are represented by the returned lines and
  exit status.
- Whitespace: it is the ASCII set of `str.isspace()`; the
  non-ASCII whitespace that `str.strip()` also removes is not modelled.
