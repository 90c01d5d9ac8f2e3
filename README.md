# ztp-watcher: the trigger-file handler, in Dafny

ztp-watcher watches a directory for trigger files. A file named
`<hostname>_<hostaddr>[_...]` says that the device `hostname`, reachable at
`hostaddr`, is ready: the watcher logs the file, then starts a background
firmware upgrade that connects to the device and copies the configured image
from the TFTP server into flash.

This project models the decision the handler (`Handler.on_created` in
`ztp-watcher.py`) makes for each creation event, and the two values the
upgrade (`Handler.os_upgrade`) builds from a launched job:

- `PyStr` (`py_str.dfy`): the Python string operations the handler relies on,
  over `seq<char>`: `rfind`/`find` for one character, `rpartition` and `split`
  with a one-character separator, `sub in s`, and `join` as the inverse of
  `split`. Each is specified by what it means (the last separator, the maximal
  separator-free pieces, an occurrence at some position), and `split`/`join`
  are proved to be inverses.
- `ZtpWatcher` (`ztp_watcher.dfy`): the ignore list, the file event, the
  handler's reaction (the log lines it writes, in order, and one of `Ignore`,
  `ParseError(basename)` or `Launch(job)`), the connection inventory and the
  copy command. The lemmas state which events are dropped, that only the file
  name matters, what the launched hostname and address are, and that the
  upgrade connects to exactly the device the file names.

Settings that the program reads from its configuration file at start-up
(`tftpaddr`, `imgfile`, `username`, `password`) are a `Config` parameter.

Three behaviours of the code are easy to misread, and the model keeps them as
written:

- A name without `_` is not reported as a parse failure. The handler writes
  "File created: <name>" and then `split('_')[1]` raises an `IndexError` that
  leaves the handler. The model calls this outcome `ParseError(basename)`. Its
  only log line is the creation line.
- The transfer log line ends with a full stop:
  "Transferring file to <hostname> (IP: <hostaddr>)."
- There is no address resolution mode. The inventory always connects to the
  second token of the name.

## Model

| member | source | states |
|---|---|---|
| `PyStr.RFind` | ztp-watcher.py:101 | the result is the position of the last `c`, with no `c` after it; None exactly when there is no `c` |
| `PyStr.RPartition` | ztp-watcher.py:101 | the three parts concatenate back to `s`; the last part holds no separator; the middle is the separator when `s` has one and empty otherwise, with an empty first part in that case |
| `PyStr.RPartitionUnique` | ztp-watcher.py:101 | any split `before + [sep] + after` with no `sep` in `after` is the one `rpartition` returns |
| `ZtpWatcher.BaseName` | ztp-watcher.py:101 | the name is a suffix of the path and holds no `/`; when the path has a `/`, one stands just before the name; otherwise the name is the whole path |
| `PyStr.Contains` | ztp-watcher.py:102 | `sub in s` holds exactly when `sub` occurs at some position of `s`, so the empty string is in every string |
| `PyStr.MissingCharNotContained` | ztp-watcher.py:102 | a string lacking a character of `sub` does not contain `sub` |
| `ZtpWatcher.AnyContains` | ztp-watcher.py:102 | `any(sub in name for sub in subs)` holds exactly when some entry of the list occurs in the name |
| `PyStr.Find` | ztp-watcher.py:104 | the result is the position of the first `c`, with no `c` before it; None exactly when there is no `c` |
| `PyStr.Split` | ztp-watcher.py:104-105 | `split` always returns at least one piece, and more than one exactly when `s` holds the separator; no piece holds the separator |
| `PyStr.JoinSplit` | ztp-watcher.py:104-105 | joining the pieces of a split with the separator gives the string back |
| `PyStr.SplitJoin` | ztp-watcher.py:104-105 | splitting a join of separator-free pieces gives the pieces back, so `split` loses nothing and invents nothing |
| `PyStr.SplitCount` | ztp-watcher.py:104-105 | a split has one more piece than the string has separators |
| `PyStr.SplitFirstTwo` | ztp-watcher.py:104-105 | when the separator occurs, the string starts with piece 0, a separator and piece 1, and then ends or has another separator; neither piece holds the separator or any character the string lacks |
| `ZtpWatcher.FileCreatedMessage` | ztp-watcher.py:103 | the line is `File created: ` followed by exactly the name |
| `ZtpWatcher.TransferringMessage` | ztp-watcher.py:106 | the line is `Transferring file to `, the hostname, ` (IP: `, the address and `).`, in that order and nothing else |
| `ZtpWatcher.TransferringMessageInjective` | ztp-watcher.py:106 | when the hostnames hold no `(`, equal transfer lines mean the same hostname and the same address |
| `ZtpWatcher.OnCreated` | ztp-watcher.py:95-109 | a directory event yields no log line and no action; the handler logs nothing exactly when it ignores; it ignores exactly directories and names with an ignore marker; it launches exactly when an unignored name holds `_`; otherwise it fails after logging; the first log line is always "File created: <name>" |
| `ZtpWatcher.IgnoredMarkerDropsEvent` | ztp-watcher.py:102 | a base name containing `.swp` or `.save` gives no log line and no launch |
| `ZtpWatcher.ReactionDependsOnlyOnName` | ztp-watcher.py:101-102 | the base name of `dir/name` is `name`, and the reaction to `dir/name` equals the reaction to `name`, so directory components never trigger the filter |
| `ZtpWatcher.NameWithoutUnderscoreFails` | ztp-watcher.py:103-105 | an unignored name without `_` is logged once, with no transfer line and no launch |
| `ZtpWatcher.LaunchedJobIsNamedDevice` | ztp-watcher.py:103-109 | a launched hostname is the text before the first `_`; the address is the text up to the next `_` or the end; neither holds `_` or `/`; the log is the creation line followed by the transfer line; the job carries the configured server and image |
| `ZtpWatcher.JoinedTokensLaunch` | ztp-watcher.py:101-109 | conversely, an unmarked name made of two or more `_`-free tokens launches the job for its first two tokens and logs both lines |
| `ZtpWatcher.ExampleEmptyAddress` | ztp-watcher.py:104-105 | `A__B` launches with hostname `A` and an empty address, because the tokens are not checked |
| `ZtpWatcher.ExampleNoUnderscore` | ztp-watcher.py:103-105 | `<dir>/SW01` logs only the creation line for `SW01` and fails |
| `ZtpWatcher.ExampleMarkerInDirectory` | ztp-watcher.py:101-102 | `ztp.swp/R1_10` still launches for `R1` at `10` |
| `ZtpWatcher.ExampleSwapFile` | ztp-watcher.py:102 | `<dir>/.SW01_10.0.0.5.swp` is dropped silently |
| `ZtpWatcher.CopyCommand` | ztp-watcher.py:90 | the command starts with `copy tftp://`, ends with ` flash:`, and between them holds exactly the server address, a `/` and the image file |
| `ZtpWatcher.CopyCommandInjective` | ztp-watcher.py:90 | when neither server address holds `/`, equal commands mean the same server and the same image |
| `ZtpWatcher.Inventory` | ztp-watcher.py:75-86 | the inventory has exactly one host, keyed by the hostname; it connects to `hostaddr` with the configured username and password on platform `ios` |
| `ZtpWatcher.OsUpgrade` | ztp-watcher.py:73-92 | the upgrade's inventory has the job's hostname as its only key, reached at the job's address with the configured username and password on platform `ios`; its command is `copy tftp://`, the job's server, `/`, the job's image, ` flash:`; its delay factor is 6 |
| `ZtpWatcher.OsUpgradeDeterminesJob` | ztp-watcher.py:73-92 | when the server addresses hold no `/`, two jobs that produce the same upgrade are the same job, so the upgrade loses none of the job |
| `ZtpWatcher.LaunchUpgradesNamedDevice` | ztp-watcher.py:73-109 | the upgrade launched for a file has one inventory host, keyed by the name's first token and reaching its second token; its command copies the configured image from the configured server |

## Left out

- Configuration loading (ztp-watcher.py:16-24) is file I/O. Its values are the `Config` parameter.
- `Logger` and `std_log` (ztp-watcher.py:29-42) write to a log file through the logging library. Log lines are modelled as the message strings passed to `Logger`. The timestamp, the `-- ` prefix and the per-host result lines written after the upgrade are not modelled.
- `Watcher.run` and the `__main__` entry point (ztp-watcher.py:45-68, 112-114) are event-source plumbing: the observer, the five-second sleep loop and interrupt handling. Only the events the observer delivers are modelled, as `FileEvent` values.
- Starting the upgrade thread (ztp-watcher.py:107-109) is fire-and-forget concurrency. It is modelled only as the `Launch(job)` value.
- `InitNornir` and `nr.run(netmiko_send_command, ...)` (ztp-watcher.py:74-92) open the SSH session and run the command in the Nornir and Netmiko libraries. Only the inventory and the command they receive are modelled, as `OsUpgrade`. Their output and failures are not.
- The `IndexError` raised for a name without `_` is modelled as `ParseError`. What the observer does with the escaped exception is not part of this model.
- `PyStr.RPartition` and `PyStr.Split` take a single-character separator. Python accepts any non-empty string, but the handler only uses `/` and `_`.
- Reachability probing, image-presence checks, boot-variable setting, post-provisioning configuration, configuration archiving, `write mem` and address extraction from file content do not appear in ztp-watcher.py. They are not modelled.
