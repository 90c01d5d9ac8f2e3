/**
 * The trigger-file handler of the zero-touch provisioning watcher.
 *
 * For every file-system event the watcher reacts in one of three ways: it
 * ignores the event, it logs the new file's name and then fails to read a
 * device identity from it, or it logs the name and the identity and launches
 * a firmware upgrade for the device `<hostname>_<hostaddr>[_...]` the name
 * spells. The upgrade is described by the inventory it connects with and the
 * copy command it sends.
 */
module ZtpWatcher {
  import opened PyStr

  /** Substrings that mark a file name as an editor swap or backup file. */
  const IgnoreFiles: seq<string> := [".swp", ".save"]

  /** Platform every inventory host is given. */
  const Platform: string := "ios"

  /** Delay factor the copy command is sent with. */
  const DelayFactor: nat := 6

  /** Settings read from the configuration file at start-up. */
  datatype Config = Config(tftpaddr: string, imgfile: string, username: string, password: string)

  /** A creation event from the directory watcher. */
  datatype FileEvent = FileEvent(isDirectory: bool, srcPath: string)

  /** The arguments a launched upgrade runs with. */
  datatype Job = Job(hostname: string, hostaddr: string, tftpaddr: string, imgfile: string)

  datatype Action =
    | Ignore
      /** The name holds no `_`, so it has no second token: the handler fails after its first log line. */
    | ParseError(basename: string)
    | Launch(job: Job)

  /** What one event produces: the log lines written, in order, and the action taken. */
  datatype Reaction = Reaction(log: seq<string>, action: Action)

  /**
   * One host of the connection inventory. As in Nornir's inventory, `hostname`
   * is the address the connection is opened to, not the device's name, which
   * is the host's key in the inventory map.
   */
  datatype InventoryHost = InventoryHost(hostname: string, username: string, password: string, platform: string)

  /** The upgrade run for one device: whom it connects to and which command it sends. */
  datatype UpgradeTask = UpgradeTask(inventory: map<string, InventoryHost>, command: string, delayFactor: nat)

  /** The file name of a path: the text after its last `/`, or the whole path when it has none. */
  function BaseName(path: string): (name: string)
    ensures '/' !in name
    ensures |name| <= |path| && path[|path| - |name|..] == name
    ensures '/' in path ==> |name| < |path| && path[|path| - |name| - 1] == '/'
    ensures '/' !in path ==> name == path
  {
    var parts := RPartition(path, '/');
    assert path == parts.0 + parts.1 + parts.2;
    parts.2
  }

  /** Python's `any(sub in name for sub in subs)`. */
  function AnyContains(name: string, subs: seq<string>): (r: bool)
    ensures r <==> exists k :: 0 <= k < |subs| && Contains(name, subs[k])
  {
    if |subs| == 0 then false
    else if Contains(name, subs[0]) then true
    else
      assert forall k :: 1 <= k < |subs| ==> subs[k] == subs[1..][k - 1];
      AnyContains(name, subs[1..])
  }

  /** The log line for a new file: a fixed 14-character lead-in, then the name. */
  function FileCreatedMessage(name: string): (m: string)
    ensures |m| == 14 + |name|
    ensures m[..14] == "File created: " && m[14..] == name
  {
    "File created: " + name
  }

  /**
   * The log line for a transfer: a fixed lead-in, the hostname, ` (IP: `, the
   * address and a closing `).`, full stop included.
   */
  function TransferringMessage(hostname: string, hostaddr: string): (m: string)
    ensures |m| == 29 + |hostname| + |hostaddr|
    ensures m[..21] == "Transferring file to "
    ensures m[21..21 + |hostname|] == hostname
    ensures m[21 + |hostname|..27 + |hostname|] == " (IP: "
    ensures m[27 + |hostname|..|m| - 2] == hostaddr
    ensures m[|m| - 2..] == ")."
  {
    "Transferring file to " + hostname + " (IP: " + hostaddr + ")."
  }

  /** A transfer line names its device unambiguously when the hostname holds no `(`. */
  lemma TransferringMessageInjective(h1: string, a1: string, h2: string, a2: string)
    requires '(' !in h1 && '(' !in h2
    requires TransferringMessage(h1, a1) == TransferringMessage(h2, a2)
    ensures h1 == h2 && a1 == a2
  {
    var x1, x2 := h1 + [' '], h2 + [' '];
    var y1, y2 := "IP: " + a1, "IP: " + a2;
    TransferringMiddle(h1, a1);
    TransferringMiddle(h2, a2);
    FirstSepInjective(x1, y1, x2, y2, '(');
    assert h1 == x1[..|h1|] && h2 == x2[..|h2|];
    assert a1 == y1[4..] && a2 == y2[4..];
  }

  /** Proof step: between its fixed ends, a transfer line is the hostname, ` (` and `IP: ` with the address. */
  lemma TransferringMiddle(h: string, a: string)
    ensures var m := TransferringMessage(h, a);
            m[21..|m| - 2] == (h + [' ']) + ['('] + ("IP: " + a)
  {
    var m := TransferringMessage(h, a);
    var mid := m[21..|m| - 2];
    assert mid[..|h|] == h;
    assert mid[|h|..|h| + 6] == " (IP: ";
    assert mid[|h| + 6..] == a;
    assert mid == mid[..|h|] + mid[|h|..|h| + 6] + mid[|h| + 6..];
  }

  /**
   * The handler's reaction to a creation event: directories and names with an
   * ignore marker are dropped without a log line; every other name is logged,
   * split on `_`, and its first two tokens become the device's hostname and
   * address.
   */
  function OnCreated(cfg: Config, ev: FileEvent): (r: Reaction)
    ensures ev.isDirectory ==> r == Reaction([], Ignore)
    ensures r.action.Ignore? <==> r.log == []
    ensures r.action.Ignore? <==> ev.isDirectory || AnyContains(BaseName(ev.srcPath), IgnoreFiles)
    ensures r.action.Launch? <==> !r.action.Ignore? && '_' in BaseName(ev.srcPath)
    ensures !r.action.Ignore? ==> r.log[0] == FileCreatedMessage(BaseName(ev.srcPath))
  {
    if ev.isDirectory then
      Reaction([], Ignore)
    else
      var newfile := BaseName(ev.srcPath);
      if AnyContains(newfile, IgnoreFiles) then
        Reaction([], Ignore)
      else
        var tokens := Split(newfile, '_');
        if |tokens| < 2 then
          Reaction([FileCreatedMessage(newfile)], ParseError(newfile))
        else
          var hostname, hostaddr := tokens[0], tokens[1];
          Reaction([FileCreatedMessage(newfile), TransferringMessage(hostname, hostaddr)],
                   Launch(Job(hostname, hostaddr, cfg.tftpaddr, cfg.imgfile)))
  }

  /** A name with a swap or backup marker is dropped without a log line. */
  lemma IgnoredMarkerDropsEvent(cfg: Config, ev: FileEvent)
    requires Contains(BaseName(ev.srcPath), ".swp") || Contains(BaseName(ev.srcPath), ".save")
    ensures OnCreated(cfg, ev) == Reaction([], Ignore)
  {
    if Contains(BaseName(ev.srcPath), ".swp") {
      assert IgnoreFiles[0] == ".swp";
    } else {
      assert IgnoreFiles[1] == ".save";
    }
  }

  /**
   * Only the file name decides: a file `name` reached through any directory
   * path gets the reaction `name` alone gets, so a marker in a directory
   * component never drops an event.
   */
  lemma ReactionDependsOnlyOnName(cfg: Config, dir: string, name: string)
    requires '/' !in name
    ensures BaseName(dir + "/" + name) == name
    ensures OnCreated(cfg, FileEvent(false, dir + "/" + name)) == OnCreated(cfg, FileEvent(false, name))
  {
    RPartitionUnique(dir + "/" + name, '/', dir, name);
  }

  /** An unmarked name without `_` is logged once and then fails: no transfer line, no launch. */
  lemma NameWithoutUnderscoreFails(cfg: Config, ev: FileEvent)
    requires !ev.isDirectory && !AnyContains(BaseName(ev.srcPath), IgnoreFiles)
    requires '_' !in BaseName(ev.srcPath)
    ensures OnCreated(cfg, ev) ==
            Reaction([FileCreatedMessage(BaseName(ev.srcPath))], ParseError(BaseName(ev.srcPath)))
  {
  }

  /**
   * A launched job names the device the file does: its hostname is the text
   * before the first `_`, its address the text up to the next `_` or the end;
   * neither holds `_` or `/`; the log says so after the creation line; and the
   * job carries the configured server and image.
   */
  lemma LaunchedJobIsNamedDevice(cfg: Config, ev: FileEvent, job: Job)
    requires OnCreated(cfg, ev).action == Launch(job)
    ensures job.hostname + "_" + job.hostaddr <= BaseName(ev.srcPath)
    ensures var n := |job.hostname| + 1 + |job.hostaddr|;
            n == |BaseName(ev.srcPath)| || BaseName(ev.srcPath)[n] == '_'
    ensures '_' !in job.hostname && '_' !in job.hostaddr
    ensures '/' !in job.hostname && '/' !in job.hostaddr
    ensures job.tftpaddr == cfg.tftpaddr && job.imgfile == cfg.imgfile
    ensures OnCreated(cfg, ev).log
            == [FileCreatedMessage(BaseName(ev.srcPath)), TransferringMessage(job.hostname, job.hostaddr)]
  {
    LaunchedTokens(cfg, ev);
    SplitFirstTwo(BaseName(ev.srcPath), '_', '/');
  }

  /** Proof step: a launch is the reaction built from the first two tokens of the name. */
  lemma LaunchedTokens(cfg: Config, ev: FileEvent)
    requires OnCreated(cfg, ev).action.Launch?
    ensures var p := Split(BaseName(ev.srcPath), '_');
            && |p| >= 2
            && OnCreated(cfg, ev)
               == Reaction([FileCreatedMessage(BaseName(ev.srcPath)), TransferringMessage(p[0], p[1])],
                           Launch(Job(p[0], p[1], cfg.tftpaddr, cfg.imgfile)))
  {
  }

  /** The TFTP copy command that stages `imgfile` from the server `tftpaddr` into flash. */
  function CopyCommand(tftpaddr: string, imgfile: string): (cmd: string)
    ensures "copy tftp://" <= cmd
    ensures |cmd| == 20 + |tftpaddr| + |imgfile| && cmd[|cmd| - 7..] == " flash:"
    ensures cmd[12..|cmd| - 7] == tftpaddr + "/" + imgfile
  {
    "copy tftp://" + tftpaddr + "/" + imgfile + " flash:"
  }

  /** A server address without `/` makes the copy command name the server and the image unambiguously. */
  lemma CopyCommandInjective(t1: string, i1: string, t2: string, i2: string)
    requires '/' !in t1 && '/' !in t2
    requires CopyCommand(t1, i1) == CopyCommand(t2, i2)
    ensures t1 == t2 && i1 == i2
  {
    var c := CopyCommand(t1, i1);
    var u1 := t1 + "/" + i1;
    var u2 := t2 + "/" + i2;
    assert c[12..|c| - 7] == u1;
    assert CopyCommand(t2, i2)[12..|c| - 7] == u2;
    assert u1 == u2;
    assert u1 == t1 + ['/'] + i1 && u2 == t2 + ['/'] + i2;
    FindFirst(t1, '/', i1);
    FindFirst(t2, '/', i2);
    assert |t1| == |t2|;
    assert t1 == u1[..|t1|] && t2 == u2[..|t2|];
    assert i1 == u1[|t1| + 1..] && i2 == u2[|t2| + 1..];
  }

  /** The inventory of one upgrade: the single host `hostname`, reached at `hostaddr`. */
  function Inventory(cfg: Config, hostname: string, hostaddr: string): (inv: map<string, InventoryHost>)
    ensures inv.Keys == {hostname}
    ensures inv[hostname].hostname == hostaddr && inv[hostname].platform == Platform
    ensures inv[hostname].username == cfg.username && inv[hostname].password == cfg.password
  {
    map[hostname := InventoryHost(hostaddr, cfg.username, cfg.password, Platform)]
  }

  /** The upgrade a launched job runs: connect to the job's device and copy the job's image from its server. */
  function OsUpgrade(cfg: Config, job: Job): (t: UpgradeTask)
    ensures t.inventory.Keys == {job.hostname}
    ensures t.inventory[job.hostname] == InventoryHost(job.hostaddr, cfg.username, cfg.password, "ios")
    ensures "copy tftp://" <= t.command && |t.command| >= 19
    ensures t.command[12..|t.command| - 7] == job.tftpaddr + "/" + job.imgfile
    ensures t.command[|t.command| - 7..] == " flash:"
    ensures t.delayFactor == 6
  {
    UpgradeTask(Inventory(cfg, job.hostname, job.hostaddr),
                CopyCommand(job.tftpaddr, job.imgfile),
                DelayFactor)
  }

  /**
   * The upgrade determines the device and the transfer: when the server
   * addresses hold no `/`, two jobs with the same upgrade are the same job.
   */
  lemma OsUpgradeDeterminesJob(cfg: Config, j1: Job, j2: Job)
    requires '/' !in j1.tftpaddr && '/' !in j2.tftpaddr
    requires OsUpgrade(cfg, j1) == OsUpgrade(cfg, j2)
    ensures j1 == j2
  {
    var t1, t2 := OsUpgrade(cfg, j1), OsUpgrade(cfg, j2);
    assert j1.hostname in t1.inventory.Keys;
    assert j1.hostname == j2.hostname;
    assert t1.inventory[j1.hostname].hostname == j1.hostaddr;
    CopyCommandInjective(j1.tftpaddr, j1.imgfile, j2.tftpaddr, j2.imgfile);
  }

  /**
   * From trigger file to upgrade: the upgrade launched for a file connects, as
   * the host named by the file's first token, to the address in its second
   * token, and copies the configured image from the configured server.
   */
  lemma LaunchUpgradesNamedDevice(cfg: Config, ev: FileEvent)
    requires OnCreated(cfg, ev).action.Launch?
    ensures var tokens := Split(BaseName(ev.srcPath), '_');
            var t := OsUpgrade(cfg, OnCreated(cfg, ev).action.job);
            && |tokens| >= 2
            && t.inventory.Keys == {tokens[0]}
            && t.inventory[tokens[0]] == InventoryHost(tokens[1], cfg.username, cfg.password, Platform)
            && t.command == "copy tftp://" + cfg.tftpaddr + "/" + cfg.imgfile + " flash:"
  {
  }

  /**
   * Conversely, an unmarked file name made of two or more `_`-free tokens
   * joined by `_` launches the upgrade of the device its first two tokens name.
   */
  lemma JoinedTokensLaunch(cfg: Config, name: string, tokens: seq<string>)
    requires '/' !in name && !AnyContains(name, IgnoreFiles)
    requires |tokens| >= 2 && forall k :: 0 <= k < |tokens| ==> '_' !in tokens[k]
    requires Join(tokens, '_') == name
    ensures OnCreated(cfg, FileEvent(false, name))
            == Reaction([FileCreatedMessage(name), TransferringMessage(tokens[0], tokens[1])],
                        Launch(Job(tokens[0], tokens[1], cfg.tftpaddr, cfg.imgfile)))
  {
    SplitJoin(tokens, '_');
    JoinHead(tokens, '_');
    assert name[|tokens[0]|] == '_';
  }

  /** Nothing checks the tokens: in `A__B` the address is the empty text between the two `_`. */
  lemma ExampleEmptyAddress(cfg: Config)
    ensures OnCreated(cfg, FileEvent(false, "A__B")).action == Launch(Job("A", "", cfg.tftpaddr, cfg.imgfile))
  {
    var name := "A__B";
    var tokens := ["A", "", "B"];
    assert '/' !in name && '.' !in name;
    assert '_' !in tokens[0] && '_' !in tokens[1] && '_' !in tokens[2];
    assert Join(tokens, '_') == name;
    MissingCharNotContained(name, ".swp", '.');
    MissingCharNotContained(name, ".save", '.');
    JoinedTokensLaunch(cfg, name, tokens);
  }

  /** A name without `_` is logged and then fails to parse. */
  lemma ExampleNoUnderscore(cfg: Config, dir: string)
    ensures OnCreated(cfg, FileEvent(false, dir + "/" + "SW01"))
            == Reaction([FileCreatedMessage("SW01")], ParseError("SW01"))
  {
    var name := "SW01";
    assert '/' !in name;
    assert OnCreated(cfg, FileEvent(false, name))
           == Reaction([FileCreatedMessage(name)], ParseError(name)) by {
      assert '/' !in name && '.' !in name && '_' !in name;
      MissingCharNotContained(name, ".swp", '.');
      MissingCharNotContained(name, ".save", '.');
      NameWithoutUnderscoreFails(cfg, FileEvent(false, name));
    }
    ReactionDependsOnlyOnName(cfg, dir, name);
  }

  /** A swap marker in a directory name does not stop the launch. */
  lemma ExampleMarkerInDirectory(cfg: Config)
    ensures OnCreated(cfg, FileEvent(false, "ztp.swp" + "/" + "R1_10")).action
            == Launch(Job("R1", "10", cfg.tftpaddr, cfg.imgfile))
  {
    var name := "R1_10";
    var tokens := ["R1", "10"];
    assert '/' !in name && '.' !in name;
    assert '_' !in tokens[0] && '_' !in tokens[1];
    assert Join(tokens, '_') == name;
    MissingCharNotContained(name, ".swp", '.');
    MissingCharNotContained(name, ".save", '.');
    JoinedTokensLaunch(cfg, name, tokens);
    ReactionDependsOnlyOnName(cfg, "ztp.swp", name);
  }

  /** An editor swap file of a trigger file is dropped. */
  lemma ExampleSwapFile(cfg: Config, dir: string)
    ensures OnCreated(cfg, FileEvent(false, dir + "/" + ".SW01_10.0.0.5.swp")) == Reaction([], Ignore)
  {
    var name := ".SW01_10.0.0.5.swp";
    assert '/' !in name && name[14..18] == ".swp";
    ReactionDependsOnlyOnName(cfg, dir, name);
    assert OccursAt(name, ".swp", 14);
    IgnoredMarkerDropsEvent(cfg, FileEvent(false, name));
  }
}
