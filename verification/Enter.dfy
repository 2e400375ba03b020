/** atfw_enter of contrib/atf-bmk/win/atfw-compat.c: the path arguments of a test program are made
    native before getopt sees them. */
module Enter {
  import opened Options
  import opened Strings
  import opened Fs
  import opened Text

  // ----- atfw_native_path -----

  datatype Conversion = AsIs | NoRoot | Converted(path: string)

  const BUF_SIZE := 4096

  /** snprintf into the buffer */
  function Fit(s: string): string {
    if |s| < BUF_SIZE then s else s[..BUF_SIZE - 1]
  }

  /** The longest front of the text that leaves room for the final NUL. */
  lemma FitIs(s: string, front: string)
    requires front <= s && |front| <= 4095
    ensures Fit(s) <= s && |Fit(s)| <= 4095 && front <= Fit(s)
  {
  }

  /** /cygdrive/<d>, or something below it */
  predicate OnDrive(path: string) {
    |path| > 10 && path[..10] == "/cygdrive/" && (|path| == 11 || path[11] == '/')
  }

  /** An absolute path; two leading slashes are something else. */
  predicate Convertible(path: string) {
    |path| > 0 && path[0] == '/' && !(|path| > 1 && path[1] == '/')
  }

  /** The Cygwin root is an oracle: None when it is not known. */
  function NativePath(path: string, root: Option<string>): Conversion {
    if OnDrive(path) then Converted(Fit([path[10]] + ":" + (if |path| == 11 then "/" else path[11..])))
    else if Convertible(path) then
      (match root
       case None => NoRoot
       case Some(r) => Converted(Fit(r + path)))
    else AsIs
  }

  /** The text that replaces a path argument. */
  function Convert(path: string, root: Option<string>): (r: string)
    ensures |path| == 0 <==> |r| == 0
  {
    match NativePath(path, root)
    case Converted(p) => p
    case _ => path
  }

  lemma OnDriveConvertible(path: string)
    requires OnDrive(path)
    ensures Convertible(path) && path[1] == 'c'
  {
    assert path[..10][0] == path[0] && path[..10][1] == path[1];
  }

  /** A path on a Cygwin drive, and what is not one, by its text. */
  lemma OnDriveIs(path: string)
    ensures OnDrive(path) <==>
            (exists d :: path == "/cygdrive/" + [d]) || (exists d, rest :: path == "/cygdrive/" + [d] + "/" + rest)
  {
    if OnDrive(path) {
      if |path| == 11 {
        assert path == "/cygdrive/" + [path[10]];
      } else {
        assert path == "/cygdrive/" + [path[10]] + "/" + path[12..];
      }
    }
  }

  /** Relative paths, and those that start with two slashes, stay as they are... */
  lemma OthersStay(path: string, rest: string, root: Option<string>)
    requires !("/" <= path)
    ensures Convert(path, root) == path && Convert("//" + rest, root) == "//" + rest
  {
    var double := "//" + rest;
    if OnDrive(double) {
      OnDriveConvertible(double);
    }
    assert path != "" ==> path[..1] == [path[0]];
    if OnDrive(path) {
      OnDriveConvertible(path);
    }
  }

  /** ...and every other path that starts with one slash and is on no drive goes under the root as it is,
      when the root is known. */
  lemma GoesUnderRoot(rest: string, root: string)
    requires !("/" <= rest) && !OnDrive("/" + rest)
    ensures Convert("/" + rest, Some(root)) == Fit(root + "/" + rest)
    ensures Convert("/" + rest, None) == "/" + rest
  {
    assert rest != "" ==> rest[..1] == [rest[0]];
    assert root + ("/" + rest) == root + "/" + rest;
  }

  /** Absolute paths, and only they, are made another text, by some root. */
  lemma ConvertibleIff(path: string)
    ensures Convertible(path) <==> Convert(path, Some("C:")) != path
    ensures Convertible(path) <==> exists root :: Convert(path, root) != path
  {
    var r := Convert(path, Some("C:"));
    if OnDrive(path) {
      OnDriveConvertible(path);
      assert r[1] == ':';
    } else if Convertible(path) {
      assert r[0] == 'C';
    }
  }

  /** A path on a Cygwin drive becomes one on the Windows drive... */
  lemma DrivePath(drive: char, rest: string, root: Option<string>)
    ensures Convert("/cygdrive/" + [drive], root) == [drive] + ":/"
    ensures Convert("/cygdrive/" + [drive] + "/" + rest, root) == Fit([drive] + ":/" + rest)
  {
    var p := "/cygdrive/" + [drive];
    assert p[..10] == "/cygdrive/" && p[10] == drive;
    assert [p[10]] + ":" + "/" == [drive] + ":/";
    var q := p + "/" + rest;
    assert q[..10] == "/cygdrive/" && q[10] == drive && q[11..] == "/" + rest;
    assert [q[10]] + ":" + q[11..] == [drive] + ":/" + rest;
  }

  /** ...which keeps the components below the drive, when the result is not cut off... */
  lemma DriveComponents(drive: char, rest: string, root: Option<string>)
    requires drive != '/' && |rest| + 3 < BUF_SIZE
    ensures var path := "/cygdrive/" + [drive] + "/" + rest;
      && Components(path) == ["cygdrive", [drive]] + Components(rest)
      && Components(Convert(path, root)) == [[drive] + ":"] + Components(rest)
  {
    hide Tokens, Convert;
    DrivePath(drive, rest, root);
    var front := "/cygdrive";
    assert "/cygdrive/" + [drive] == front + "/" + [drive];
    TokensAppendSlash(front + "/" + [drive], rest);
    TokensAppendSlash(front, [drive]);
    assert front == "" + "/" + "cygdrive";
    TokensAppendSlash("", "cygdrive");
    NoComponentsIffSlashes("");
    NameIsToken("cygdrive");
    NameIsToken([drive]);
    assert ["cygdrive"] + [[drive]] == ["cygdrive", [drive]];
    assert [drive] + ":/" + rest == [drive] + ":" + "/" + rest;
    TokensAppendSlash([drive] + ":", rest);
    NameIsToken([drive] + ":");
  }

  /** ...any other absolute path goes under the Cygwin root. */
  lemma RootComponents(path: string, root: string)
    requires Convertible(path) && !OnDrive(path) && |root| + |path| < BUF_SIZE
    ensures Convert(path, Some(root)) == root + path
    ensures Components(Convert(path, Some(root))) == Components(root) + Components(path)
    ensures Convert(path, None) == path
  {
    hide Tokens;
    var rest := path[1..];
    assert path == "" + "/" + rest && root + path == root + "/" + rest;
    TokensAppendSlash("", rest);
    TokensAppendSlash(root, rest);
    NoComponentsIffSlashes("");
  }

  /** Converting twice is converting once (atfw_open converts what atfw_enter has converted), for a
      root and a drive that do not themselves start with a slash. */
  lemma ConvertIdempotent(path: string, root: Option<string>)
    requires root.Some? ==> |root.value| > 0 && root.value[0] != '/'
    requires OnDrive(path) ==> path[10] != '/'
    ensures Convert(Convert(path, root), root) == Convert(path, root)
  {
    var r := Convert(path, root);
    if OnDrive(r) {
      OnDriveConvertible(r);
    }
    if r != path {
      assert r[0] != '/';
    }
  }

  /** When nothing is cut off, it is so exactly when the drive is not a slash, or there is no root to
      put in front; and when the root is itself no convertible path. */
  lemma ConvertIdempotentIff(path: string, root: Option<string>)
    requires |path| < BUF_SIZE && (root.Some? ==> 2 * |root.value| + |path| < BUF_SIZE)
    ensures Convert(Convert(path, root), root) == Convert(path, root) <==>
            !Convertible(path) || root == None || root.value == "" ||
            (if OnDrive(path) then path[10] != '/' else !Convertible(root.value + "/"))
  {
    var r := Convert(path, root);
    if OnDrive(path) {
      OnDriveConvertible(path);
      assert r[0] == path[10] && r[1] == ':';
      assert !OnDrive(r) by {
        if OnDrive(r) {
          OnDriveConvertible(r);
        }
      }
    } else if Convertible(path) && root.Some? {
      RootTwice(path, root.value);
    }
  }

  lemma RootTwice(path: string, root: string)
    requires Convertible(path) && !OnDrive(path) && 2 * |root| + |path| < BUF_SIZE
    ensures Convert(root + path, Some(root)) == root + path <==> root == "" || !Convertible(root + "/")
  {
    var r := root + path;
    if root == "" {
      assert r == path;
    } else {
      assert Convertible(r) <==> Convertible(root + "/");
      if OnDrive(r) {
        OnDriveConvertible(r);
        assert Convert(r, Some(root))[1] == ':';
      }
    }
  }

  // ----- atfw_enter -----

  predicate PathFlag(c: char) {
    c == 's' || c == 'r'
  }

  /** The scan stops at the first operand and at "--". */
  predicate Stops(argv: seq<string>, i: nat) {
    i >= |argv| || |argv[i]| == 0 || argv[i][0] != '-' || argv[i] == "--"
  }

  /** One turn of the scan: the element at i, or the one behind it, may be converted. */
  function Turn(argv: seq<string>, i: nat, root: Option<string>): (r: (seq<string>, nat))
    requires !Stops(argv, i)
    ensures |r.0| == |argv| && i < r.1 <= i + 2
    ensures forall j :: 0 <= j < |argv| && (j < i || j >= r.1) ==> r.0[j] == argv[j]
  {
    var flag := if |argv[i]| > 1 then argv[i][1] else '\0';
    if PathFlag(flag) && |argv[i]| == 2 && i + 1 < |argv| then
      (argv[i + 1 := Convert(argv[i + 1], root)], i + 2)
    else if PathFlag(flag) then
      (argv[i := argv[i][..2] + Convert(argv[i][2..], root)], i + 1)
    else if flag == 'v' && |argv[i]| == 2 then (argv, i + 2)
    else (argv, i + 1)
  }

  /** The scan from element i on, with the conversions it makes. */
  function EnterFrom(argv: seq<string>, i: nat, root: Option<string>): (r: seq<string>)
    ensures |r| == |argv| && forall j :: 0 <= j < i && j < |argv| ==> r[j] == argv[j]
    decreases |argv| - i
  {
    if Stops(argv, i) then argv
    else
      var (a, n) := Turn(argv, i, root);
      EnterFrom(a, n, root)
  }

  /** The scan, by the text of the element: -s and -r have the path behind them made native, whether it
      is the next element... */
  lemma ScanOfPath(front: seq<string>, c: char, path: string, rest: seq<string>, root: Option<string>)
    requires c == 's' || c == 'r'
    ensures EnterFrom(front + ["-" + [c], path] + rest, |front|, root) ==
            EnterFrom(front + ["-" + [c], Convert(path, root)] + rest, |front| + 2, root)
  {
    hide Convert;
    var argv, native := front + ["-" + [c], path] + rest, Convert(path, root);
    var i := |front| + 1;
    assert argv[i - 1] == "-" + [c] && argv[i] == path && argv[i - 1][1] == c && "--"[1] == '-';
    TwoApart(front, "-" + [c], path, rest);
    TwoApart(front, "-" + [c], native, rest);
    Replace(front + ["-" + [c]], path, rest, native);
    assert Turn(argv, i - 1, root) == (argv[i := native], i + 1);
  }

  lemma TwoApart<T>(front: seq<T>, x: T, y: T, rest: seq<T>)
    ensures front + [x, y] + rest == front + [x] + [y] + rest
  {
  }

  /** ...or attached... */
  lemma ScanOfAttached(front: seq<string>, c: char, path: string, rest: seq<string>, root: Option<string>)
    requires (c == 's' || c == 'r') && path != ""
    ensures EnterFrom(front + ["-" + [c] + path] + rest, |front|, root) ==
            EnterFrom(front + ["-" + [c] + Convert(path, root)] + rest, |front| + 1, root)
  {
    hide Convert;
    var elem := "-" + [c] + path;
    assert (front + [elem] + rest)[|front|] == elem;
    assert elem[..2] == "-" + [c] && elem[2..] == path;
    Replace(front, elem, rest, "-" + [c] + Convert(path, root));
  }

  /** ...-v alone has its value passed over, and any other element that starts with '-' is passed over
      itself, but for "--", where the scan ends, as it does at any element that does not. */
  lemma ScanOfOther(front: seq<string>, elem: string, rest: seq<string>, root: Option<string>)
    requires !("-s" <= elem) && !("-r" <= elem)
    ensures var argv := front + [elem] + rest;
      EnterFrom(argv, |front|, root) ==
        if elem == "--" || !("-" <= elem) then argv
        else EnterFrom(argv, if elem == "-v" then |front| + 2 else |front| + 1, root)
  {
    var argv := front + [elem] + rest;
    assert argv[|front|] == elem;
    assert elem != "" ==> elem[..1] == [elem[0]];
    assert |elem| > 1 ==> elem[..2] == [elem[0], elem[1]];
  }

  lemma Replace<T>(front: seq<T>, x: T, rest: seq<T>, y: T)
    ensures (front + [x] + rest)[|front| := y] == front + [y] + rest
  {
  }

  /** atfw_enter rewrites argv in place. */
  method EnterArgv(argv: array<string>, root: Option<string>)
    modifies argv
    ensures argv[..] == if argv.Length == 0 then old(argv[..])
                        else EnterFrom(old(argv[..])[0 := Slashes(old(argv[0]))], 1, root)
  {
    if argv.Length > 0 {
      argv[0] := Slashes(argv[0]);
    }
    hide Convert, Slashes;
    ghost var goal := EnterFrom(argv[..], 1, root);
    var i := 1;
    while i < argv.Length && |argv[i]| > 0 && argv[i][0] == '-'
      invariant 1 <= i && EnterFrom(argv[..], i, root) == goal
      decreases argv.Length - i
    {
      ghost var before, turn := argv[..], i;
      var flag := if |argv[i]| > 1 then argv[i][1] else '\0';
      if argv[i] == "--" {
        break;
      }
      if PathFlag(flag) && |argv[i]| == 2 && i + 1 < argv.Length {
        i := i + 1;
        argv[i] := Convert(argv[i], root);
        assert argv[..] == before[i := Convert(before[i], root)];
      } else if PathFlag(flag) {
        argv[i] := argv[i][..2] + Convert(argv[i][2..], root);
        assert argv[..] == before[i := before[i][..2] + Convert(before[i][2..], root)];
      } else if flag == 'v' && |argv[i]| == 2 {
        i := i + 1;
      }
      i := i + 1;
      assert Turn(before, turn, root) == (argv[..], i);
    }
  }
}
