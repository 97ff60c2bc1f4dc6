/** config.py: the clip-shape constants, the rule that a checkpoint file
    found under the CHECKPOINT folder wins over an explicitly configured
    path, and `read_split`. The filesystem is a parameter: the set of
    paths that exist, and for `read_split` the file's text if it exists. */
module Config {
  import opened Seqs

  // ---------------------------------------------------------------------
  // Constants
  // ---------------------------------------------------------------------

  const FrameNum: nat := 10
  const ClipNum: nat := 5
  const WindowNum: nat := 3

  // ---------------------------------------------------------------------
  // Checkpoint path resolution
  // ---------------------------------------------------------------------

  /** The fifteen configurable paths, in the order config.py declares them. */
  datatype Slot =
    | EncoderModel | RnModel | TcnModel | Rn0Model | KnncModel
    | EncoderOptim | RnOptim | TcnOptim | Rn0Optim | KnncOptim
    | EncoderScheduler | RnScheduler | TcnScheduler | Rn0Scheduler | KnncScheduler

  /** `default_names`, in its tuple order. */
  const DefaultNames: seq<string> := [
    "encoder.pkl", "rn.pkl", "tcn.pkl", "rn0.pkl",
    "encoder_optim.pkl", "rn_optim.pkl", "tcn_optim.pkl", "rn0_optim.pkl",
    "encoder_scheduler.pkl", "rn_scheduler.pkl", "tcn_scheduler.pkl", "rn0_scheduler.pkl",
    "knnc.pkl", "knnc_optim.pkl", "knnc_scheduler.pkl"
  ]

  /** The position of `results` each variable reads. */
  function SlotIndex(s: Slot): (i: nat)
    ensures i < |DefaultNames|
  {
    match s
    case EncoderModel => 0
    case RnModel => 1
    case TcnModel => 2
    case Rn0Model => 3
    case KnncModel => 12
    case EncoderOptim => 4
    case RnOptim => 5
    case TcnOptim => 6
    case Rn0Optim => 7
    case KnncOptim => 13
    case EncoderScheduler => 8
    case RnScheduler => 9
    case TcnScheduler => 10
    case Rn0Scheduler => 11
    case KnncScheduler => 14
  }

  /** Which network a slot belongs to, as its file names spell it. */
  function Network(s: Slot): string {
    match s
    case EncoderModel | EncoderOptim | EncoderScheduler => "encoder"
    case RnModel | RnOptim | RnScheduler => "rn"
    case TcnModel | TcnOptim | TcnScheduler => "tcn"
    case Rn0Model | Rn0Optim | Rn0Scheduler => "rn0"
    case KnncModel | KnncOptim | KnncScheduler => "knnc"
  }

  /** What a slot stores, as its file name's suffix spells it. */
  function Kind(s: Slot): string {
    match s
    case EncoderModel | RnModel | TcnModel | Rn0Model | KnncModel => ""
    case EncoderOptim | RnOptim | TcnOptim | Rn0Optim | KnncOptim => "_optim"
    case EncoderScheduler | RnScheduler | TcnScheduler | Rn0Scheduler | KnncScheduler => "_scheduler"
  }

  /** The positional table is right: every variable reads the default name
      made of its own network and kind. */
  lemma SlotNameAgrees(s: Slot)
    ensures DefaultNames[SlotIndex(s)] == Network(s) + Kind(s) + ".pkl"
  {
    match s
    case EncoderModel | EncoderOptim | EncoderScheduler => EncoderNamesAgree(s);
    case RnModel | RnOptim | RnScheduler => RnNamesAgree(s);
    case TcnModel | TcnOptim | TcnScheduler => TcnNamesAgree(s);
    case Rn0Model | Rn0Optim | Rn0Scheduler => Rn0NamesAgree(s);
    case KnncModel | KnncOptim | KnncScheduler => KnncNamesAgree(s);
  }

  lemma EncoderNamesAgree(s: Slot)
    requires s.EncoderModel? || s.EncoderOptim? || s.EncoderScheduler?
    ensures DefaultNames[SlotIndex(s)] == Network(s) + Kind(s) + ".pkl"
  {
    match s
    case EncoderModel =>
      assert DefaultNames[0] == "encoder.pkl";
      assert "encoder" + "" + ".pkl" == "encoder.pkl";
    case EncoderOptim =>
      assert DefaultNames[4] == "encoder_optim.pkl";
      assert "encoder" + "_optim" + ".pkl" == "encoder_optim.pkl";
    case EncoderScheduler =>
      assert DefaultNames[8] == "encoder_scheduler.pkl";
      assert "encoder" + "_scheduler" + ".pkl" == "encoder_scheduler.pkl";
  }

  lemma RnNamesAgree(s: Slot)
    requires s.RnModel? || s.RnOptim? || s.RnScheduler?
    ensures DefaultNames[SlotIndex(s)] == Network(s) + Kind(s) + ".pkl"
  {
    match s
    case RnModel =>
      assert DefaultNames[1] == "rn.pkl";
      assert "rn" + "" + ".pkl" == "rn.pkl";
    case RnOptim =>
      assert DefaultNames[5] == "rn_optim.pkl";
      assert "rn" + "_optim" + ".pkl" == "rn_optim.pkl";
    case RnScheduler =>
      assert DefaultNames[9] == "rn_scheduler.pkl";
      assert "rn" + "_scheduler" + ".pkl" == "rn_scheduler.pkl";
  }

  lemma TcnNamesAgree(s: Slot)
    requires s.TcnModel? || s.TcnOptim? || s.TcnScheduler?
    ensures DefaultNames[SlotIndex(s)] == Network(s) + Kind(s) + ".pkl"
  {
    match s
    case TcnModel =>
      assert DefaultNames[2] == "tcn.pkl";
      assert "tcn" + "" + ".pkl" == "tcn.pkl";
    case TcnOptim =>
      assert DefaultNames[6] == "tcn_optim.pkl";
      assert "tcn" + "_optim" + ".pkl" == "tcn_optim.pkl";
    case TcnScheduler =>
      assert DefaultNames[10] == "tcn_scheduler.pkl";
      assert "tcn" + "_scheduler" + ".pkl" == "tcn_scheduler.pkl";
  }

  lemma Rn0NamesAgree(s: Slot)
    requires s.Rn0Model? || s.Rn0Optim? || s.Rn0Scheduler?
    ensures DefaultNames[SlotIndex(s)] == Network(s) + Kind(s) + ".pkl"
  {
    match s
    case Rn0Model =>
      assert DefaultNames[3] == "rn0.pkl";
      assert "rn0" + "" + ".pkl" == "rn0.pkl";
    case Rn0Optim =>
      assert DefaultNames[7] == "rn0_optim.pkl";
      assert "rn0" + "_optim" + ".pkl" == "rn0_optim.pkl";
    case Rn0Scheduler =>
      assert DefaultNames[11] == "rn0_scheduler.pkl";
      assert "rn0" + "_scheduler" + ".pkl" == "rn0_scheduler.pkl";
  }

  lemma KnncNamesAgree(s: Slot)
    requires s.KnncModel? || s.KnncOptim? || s.KnncScheduler?
    ensures DefaultNames[SlotIndex(s)] == Network(s) + Kind(s) + ".pkl"
  {
    match s
    case KnncModel =>
      assert DefaultNames[12] == "knnc.pkl";
      assert "knnc" + "" + ".pkl" == "knnc.pkl";
    case KnncOptim =>
      assert DefaultNames[13] == "knnc_optim.pkl";
      assert "knnc" + "_optim" + ".pkl" == "knnc_optim.pkl";
    case KnncScheduler =>
      assert DefaultNames[14] == "knnc_scheduler.pkl";
      assert "knnc" + "_scheduler" + ".pkl" == "knnc_scheduler.pkl";
  }

  /** The variable that reads position i of `results`. */
  function SlotAt(i: nat): (s: Slot)
    requires i < |DefaultNames|
    ensures SlotIndex(s) == i
  {
    [EncoderModel, RnModel, TcnModel, Rn0Model,
     EncoderOptim, RnOptim, TcnOptim, Rn0Optim,
     EncoderScheduler, RnScheduler, TcnScheduler, Rn0Scheduler,
     KnncModel, KnncOptim, KnncScheduler][i]
  }

  /** Every position of `results` is read by exactly one variable: the
      mapping from variables to positions is a bijection. */
  lemma SlotIndexBijective(s: Slot, t: Slot)
    ensures SlotAt(SlotIndex(s)) == s
    ensures SlotIndex(s) == SlotIndex(t) ==> s == t
  {
    match s
    case EncoderModel =>
    case RnModel =>
    case TcnModel =>
    case Rn0Model =>
    case KnncModel =>
    case EncoderOptim =>
    case RnOptim =>
    case TcnOptim =>
    case Rn0Optim =>
    case KnncOptim =>
    case EncoderScheduler =>
    case RnScheduler =>
    case TcnScheduler =>
    case Rn0Scheduler =>
    case KnncScheduler =>
  }

  /** `os.path.exists`: the empty path never exists. */
  predicate Exists(fs: set<string>, path: string) {
    path != "" && path in fs
  }

  /** `os.path.join(folder, name)` for a relative name. */
  function Join(folder: string, name: string): (p: string)
    ensures name != "" ==> p != ""
    ensures |p| >= |name| && p[|p| - |name|..] == name
  {
    if folder == "" || folder[|folder| - 1] == '/' then folder + name
    else folder + "/" + name
  }

  /** `results`: the joined path of each default name that exists under the
      checkpoint folder, else the empty string. */
  function Results(checkpoint: string, fs: set<string>): (r: seq<string>)
    ensures |r| == |DefaultNames|
  {
    seq(|DefaultNames|, i requires 0 <= i < |DefaultNames| =>
      var p := Join(checkpoint, DefaultNames[i]);
      if Exists(fs, p) then p else "")
  }

  /** The value every path variable ends with: `results[i]` when non-empty,
      else the explicit setting, and the explicit settings untouched when
      the checkpoint folder does not exist. */
  function Resolve(checkpoint: string, fs: set<string>, explicit: Slot -> string): (r: Slot -> string)
    ensures !Exists(fs, checkpoint) ==> forall s :: r(s) == explicit(s)
    ensures Exists(fs, checkpoint) ==>
              (forall s :: r(s) == (var p := Join(checkpoint, Network(s) + Kind(s) + ".pkl");
                                    if Exists(fs, p) then p else explicit(s)))
  {
    if !Exists(fs, checkpoint) then explicit
    else
      var res := Results(checkpoint, fs);
      assert forall s :: DefaultNames[SlotIndex(s)] == Network(s) + Kind(s) + ".pkl" by {
        forall s { SlotNameAgrees(s); }
      }
      s => if res[SlotIndex(s)] != "" then res[SlotIndex(s)] else explicit(s)
  }

  /** Resolving twice against the same filesystem changes nothing more:
      a slot whose file exists already holds that file's path. */
  lemma ResolveIdempotent(checkpoint: string, fs: set<string>, explicit: Slot -> string, s: Slot)
    ensures Resolve(checkpoint, fs, Resolve(checkpoint, fs, explicit))(s) == Resolve(checkpoint, fs, explicit)(s)
  {
  }

  // ---------------------------------------------------------------------
  // read_split
  // ---------------------------------------------------------------------

  /** The characters Python's `str.isspace` accepts, which `str.rstrip`
      removes. */
  predicate IsSpace(c: char) {
    var n := c as int;
    || 0x09 <= n <= 0x0D || 0x1C <= n <= 0x20 || n == 0x85 || n == 0xA0
    || n == 0x1680 || 0x2000 <= n <= 0x200A || n == 0x2028 || n == 0x2029
    || n == 0x202F || n == 0x205F || n == 0x3000
  }

  /** `line.rstrip()`. */
  function RStrip(s: string): (r: string)
    ensures |r| <= |s| && r == s[..|r|]
    ensures r == "" || !IsSpace(r[|r| - 1])
    ensures forall i :: |r| <= i < |s| ==> IsSpace(s[i])
  {
    if |s| > 0 && IsSpace(s[|s| - 1]) then RStrip(s[..|s| - 1]) else s
  }

  /** A non-empty line with no newline before its end, which ends in a
      newline unless it is the last line. */
  predicate IsLine(line: string, last: bool) {
    && line != ""
    && (forall i :: 0 <= i < |line| - 1 ==> line[i] != '\n')
    && (!last ==> line[|line| - 1] == '\n')
  }

  /** `file.readlines()`: the text cut after every newline, the last line
      kept even without one. */
  function Lines(text: string): (r: seq<string>)
    ensures Flatten(r) == text
    ensures forall k :: 0 <= k < |r| ==> IsLine(r[k], k == |r| - 1)
    decreases |text|
  {
    if text == "" then []
    else
      var i := FirstNewline(text, 0);
      var first := text[..i + 1];
      var rest := text[i + 1..];
      var tail := Lines(rest);
      FlattenPrepend(first, tail);
      assert first + rest == text;
      [first] + tail
  }

  /** The position of the first newline at or after `from`, or the last
      position when there is none. */
  function FirstNewline(text: string, from: nat): (i: nat)
    requires from < |text|
    ensures from <= i < |text|
    ensures forall j :: from <= j < i ==> text[j] != '\n'
    ensures text[i] == '\n' || i == |text| - 1
    decreases |text| - from
  {
    if text[from] == '\n' || from == |text| - 1 then from else FirstNewline(text, from + 1)
  }

  lemma FlattenPrepend<T>(x: seq<T>, xss: seq<seq<T>>)
    ensures Flatten([x] + xss) == x + Flatten(xss)
    decreases |xss|
  {
    if |xss| > 0 {
      var init := xss[..|xss| - 1];
      assert ([x] + xss)[..|xss|] == [x] + init;
      FlattenPrepend(x, init);
    }
  }

  /** `read_split`: one entry per line with trailing whitespace removed, and
      an empty list for a missing file. `None` is a missing file. */
  function ReadSplit(content: Option): (r: seq<string>)
    ensures content.None? ==> r == []
    ensures content.Some? ==> |r| == |Lines(content.text)|
    ensures content.Some? ==> forall k :: 0 <= k < |r| ==>
              r[k] == RStrip(Lines(content.text)[k])
    ensures forall k :: 0 <= k < |r| ==> r[k] == "" || !IsSpace(r[k][|r[k]| - 1])
  {
    match content
    case None => []
    case Some(text) =>
      var lines := Lines(text);
      seq(|lines|, k requires 0 <= k < |lines| => RStrip(lines[k]))
  }

  datatype Option = None | Some(text: string)

  /** The text of a split file listing the given names one per line. */
  function SplitFile(names: seq<string>): string {
    if |names| == 0 then "" else names[0] + "\n" + SplitFile(names[1..])
  }

  /** A name that survives a write and a read: no trailing whitespace, and
      no character at which text-mode `readlines` ends a line ("\n", or
      "\r", which universal newlines also treat as a line end). */
  predicate CleanName(name: string) {
    && (name == "" || !IsSpace(name[|name| - 1]))
    && forall i :: 0 <= i < |name| ==> name[i] != '\n' && name[i] != '\r'
  }

  /** Writing names one per line and reading them back with `read_split`
      returns them unchanged, as long as no name ends in whitespace or holds
      a line end. */
  lemma {:induction false} ReadSplitRoundTrip(names: seq<string>)
    requires forall k :: 0 <= k < |names| ==> CleanName(names[k])
    ensures ReadSplit(Some(SplitFile(names))) == names
  {
    LinesOfSplitFile(names);
    var r := ReadSplit(Some(SplitFile(names)));
    forall k | 0 <= k < |names|
      ensures r[k] == names[k]
    {
      StripNewline(names[k]);
    }
  }

  lemma {:induction false} LinesOfSplitFile(names: seq<string>)
    requires forall k :: 0 <= k < |names| ==> CleanName(names[k])
    ensures Lines(SplitFile(names)) == seq(|names|, k requires 0 <= k < |names| => names[k] + "\n")
  {
    if |names| > 0 {
      assert CleanName(names[0]);
      LinesCons(names[0], SplitFile(names[1..]));
      LinesOfSplitFile(names[1..]);
      TerminatedCons(names);
    }
  }

  /** A clean name followed by a newline is the first line of the text. */
  lemma LinesCons(name: string, rest: string)
    requires CleanName(name)
    ensures Lines(name + "\n" + rest) == [name + "\n"] + Lines(rest)
  {
    var text := name + "\n" + rest;
    NewlineAt(text, name);
    assert text[..|name| + 1] == name + "\n";
    assert text[|name| + 1..] == rest;
  }

  /** The names, each with its newline, start with the first one's. */
  lemma TerminatedCons(names: seq<string>)
    requires |names| > 0
    ensures seq(|names|, k requires 0 <= k < |names| => names[k] + "\n")
            == [names[0] + "\n"] + seq(|names| - 1, k requires 0 <= k < |names| - 1 => names[1..][k] + "\n")
  {
  }

  lemma NewlineAt(text: string, name: string)
    requires |text| > |name| && text[..|name|] == name && text[|name|] == '\n'
    requires forall i :: 0 <= i < |name| ==> name[i] != '\n'
    ensures FirstNewline(text, 0) == |name|
  {
    FirstNewlineFrom(text, 0, |name|);
  }

  lemma {:induction false} FirstNewlineFrom(text: string, from: nat, n: nat)
    requires from <= n < |text| && text[n] == '\n'
    requires forall i :: from <= i < n ==> text[i] != '\n'
    ensures FirstNewline(text, from) == n
    decreases n - from
  {
    if from < n {
      FirstNewlineFrom(text, from + 1, n);
    }
  }

  lemma StripNewline(name: string)
    requires CleanName(name)
    ensures RStrip(name + "\n") == name
  {
    var s := name + "\n";
    assert s[..|s| - 1] == name;
  }
}
