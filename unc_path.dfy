/** The destination path of the streaming engine: a UNC path such as
    \\server\share\dir\file.dat, cut into the server to connect to, the
    share to mount and the path of the file on that share. */
module UncPath {
  import opened Common

  /** The parts the connection, the tree connect and the open use. */
  datatype SmbTarget = SmbTarget(server: string, sharePath: string, filePath: string)

  /** The exceptions the split raises: too few fields for the two names
      (ValueError from the unpacking), or no field for the file path
      (IndexError from the indexing). */
  datatype UncError = UnpackError | IndexError

  /** No separator of either kind. */
  predicate Plain(s: string)
  {
    '/' !in s && '\\' !in s
  }

  /** s.replace('\\', '/'): every backslash becomes a slash. */
  function Normalize(s: string): (r: string)
    ensures |r| == |s| && '\\' !in r
    ensures forall i :: 0 <= i < |s| ==> r[i] == (if s[i] == '\\' then '/' else s[i])
  {
    seq(|s|, i requires 0 <= i < |s| => if s[i] == '\\' then '/' else s[i])
  }

  lemma NormalizeAppend(a: string, b: string)
    ensures Normalize(a + b) == Normalize(a) + Normalize(b)
  {
    assert forall i :: 0 <= i < |a + b| ==> Normalize(a + b)[i] == (Normalize(a) + Normalize(b))[i];
  }

  lemma NormalizePlain(s: string)
    requires '\\' !in s
    ensures Normalize(s) == s
  {
    assert forall i :: 0 <= i < |s| ==> Normalize(s)[i] == s[i];
  }

  /** The number of slashes in s. */
  function Slashes(s: string): nat
  {
    if s == [] then 0 else (if s[0] == '/' then 1 else 0) + Slashes(s[1..])
  }

  /** s.split('/', maxSplit): cut at the first maxSplit slashes, the last
      field keeping the rest of s. */
  function Split(s: string, maxSplit: nat): (fields: seq<string>)
    ensures 1 <= |fields| <= maxSplit + 1
    // the cuts are at the first separators: no field but the last holds
    // one, and the last holds none when the cut limit was not reached
    ensures forall k :: 0 <= k < |fields| - 1 ==> '/' !in fields[k]
    ensures |fields| <= maxSplit ==> '/' !in fields[|fields| - 1]
  {
    var i := FirstIndex(s, '/');
    if maxSplit == 0 || i == |s| then [s]
    else [s[..i]] + Split(s[i + 1..], maxSplit - 1)
  }

  /** '/'.join(fields). */
  function Join(fields: seq<string>): string
    requires |fields| >= 1
  {
    if |fields| == 1 then fields[0] else fields[0] + "/" + Join(fields[1..])
  }

  /** Text before the first slash is the first field. */
  lemma SplitAtFirst(a: string, b: string, maxSplit: nat)
    requires '/' !in a && maxSplit > 0
    ensures Split(a + "/" + b, maxSplit) == [a] + Split(b, maxSplit - 1)
  {
    var s := a + "/" + b;
    assert s[|a|] == '/' && s[..|a|] == a && s[|a| + 1..] == b;
    assert FirstIndex(s, '/') == |a|;
  }

  /** A field with no slash, or a split with no cut left, stays whole. */
  lemma SplitAlone(a: string, maxSplit: nat)
    requires maxSplit == 0 || '/' !in a
    ensures Split(a, maxSplit) == [a] && Join([a]) == a
  {
  }

  lemma JoinCons(fields: seq<string>)
    requires |fields| > 1
    ensures Join(fields) == fields[0] + "/" + Join(fields[1..])
    ensures fields == [fields[0]] + fields[1..]
  {
  }

  lemma CutAt(s: string, i: nat)
    requires i < |s| && s[i] == '/'
    ensures s == s[..i] + "/" + s[i + 1..]
  {
  }

  /** Joining the fields of a split with slashes gives the text back. */
  lemma {:induction false} SplitJoinBack(s: string, maxSplit: nat)
    ensures Join(Split(s, maxSplit)) == s
    decreases |s|
  {
    var i := FirstIndex(s, '/');
    if maxSplit == 0 || i == |s| {
      SplitAlone(s, maxSplit);
    } else {
      var rest := Split(s[i + 1..], maxSplit - 1);
      SplitJoinBack(s[i + 1..], maxSplit - 1);
      assert Split(s, maxSplit) == [s[..i]] + rest;
      JoinStep(s, i, rest);
    }
  }

  /** A field cut at a slash, joined back before the rest, restores s. */
  lemma JoinStep(s: string, i: nat, rest: seq<string>)
    requires i < |s| && s[i] == '/' && |rest| >= 1 && Join(rest) == s[i + 1..]
    ensures Join([s[..i]] + rest) == s
  {
    JoinCons([s[..i]] + rest);
    assert ([s[..i]] + rest)[1..] == rest;
    CutAt(s, i);
  }

  /** The split yields one field more than the slashes it cuts at. */
  lemma {:induction false} SplitCount(s: string, maxSplit: nat)
    ensures |Split(s, maxSplit)| == Min(Slashes(s), maxSplit) + 1
    decreases |s|
  {
    var i := FirstIndex(s, '/');
    if i == |s| {
      SlashesAbsent(s);
      SplitAlone(s, maxSplit);
    } else if maxSplit > 0 {
      SlashesAt(s, i);
      SplitCount(s[i + 1..], maxSplit - 1);
    }
  }

  lemma {:induction false} SlashesAbsent(s: string)
    requires '/' !in s
    ensures Slashes(s) == 0
  {
    if s != [] {
      SlashesAbsent(s[1..]);
    }
  }

  /** Cutting at the first slash leaves one slash fewer behind it. */
  lemma {:induction false} SlashesAt(s: string, i: nat)
    requires i < |s| && s[i] == '/' && '/' !in s[..i]
    ensures Slashes(s) == 1 + Slashes(s[i + 1..])
  {
    if i > 0 {
      assert '/' !in s[1..][..i - 1] by { assert s[1..][..i - 1] == s[1..i]; }
      SlashesAt(s[1..], i - 1);
      assert s[1..][i..] == s[i + 1..];
    }
  }

  /** Lines 35-36 of transfer_file: after normalising the separators, the
      path is split at its first three slashes; fields 1 and 2 are the
      server and the share, and field 3 behind a slash is the file path. */
  function ParseUncPath(smbPath: string): (r: Result<SmbTarget, UncError>)
    ensures r == Err(UnpackError) <==> Slashes(Normalize(smbPath)) < 2
    ensures r == Err(IndexError) <==> Slashes(Normalize(smbPath)) == 2
    ensures r.Ok? ==> '/' !in r.value.server && '/' !in r.value.sharePath
  {
    var fields := Split(Normalize(smbPath), 3);
    SplitCount(Normalize(smbPath), 3);
    if |fields| < 3 then Err(UnpackError)
    else if |fields| < 4 then Err(IndexError)
    else Ok(SmbTarget(fields[1], fields[2], "/" + fields[3]))
  }

  /** A path with one separator before the server is read as meant:
      whatever precedes that separator is dropped, and the file path keeps
      the rest of the path with its separators normalised. */
  lemma SingleSeparatorPath(lead: string, server: string, share: string, path: string)
    requires Plain(lead) && Plain(server) && Plain(share)
    ensures ParseUncPath(lead + "\\" + server + "\\" + share + "\\" + path) ==
            Ok(SmbTarget(server, share, "/" + Normalize(path)))
  {
    var p := lead + "\\" + server + "\\" + share + "\\" + path;
    NormalizeAppend(lead + "\\" + server + "\\" + share + "\\", path);
    NormalizeAppend(lead + "\\" + server + "\\" + share, "\\");
    NormalizeAppend(lead + "\\" + server + "\\", share);
    NormalizeAppend(lead + "\\" + server, "\\");
    NormalizeAppend(lead + "\\", server);
    NormalizeAppend(lead, "\\");
    NormalizePlain(lead);
    NormalizePlain(server);
    NormalizePlain(share);
    var np := Normalize(path);
    assert Normalize(p) == lead + "/" + (server + "/" + (share + "/" + np));
    UncFields(p, lead, server, share, np);
  }

  /** Whatever mix of separators it is written with, a path that
      normalises to lead/server/share/rest, with no separator in the first
      three, is read as server, share and "/" + rest. */
  lemma UncFields(smbPath: string, lead: string, server: string, share: string, rest: string)
    requires Normalize(smbPath) == lead + "/" + (server + "/" + (share + "/" + rest))
    requires '/' !in lead && '/' !in server && '/' !in share
    ensures ParseUncPath(smbPath) == Ok(SmbTarget(server, share, "/" + rest))
  {
    SplitAtFirst(lead, server + "/" + (share + "/" + rest), 3);
    SplitAtFirst(server, share + "/" + rest, 2);
    SplitAtFirst(share, rest, 1);
    SplitAlone(rest, 0);
  }

  /** As written, a UNC path with its two leading backslashes is misread:
      the server comes out empty, the server name is taken for the share,
      and the share becomes the first directory of the file path. */
  lemma UncPathMisread(server: string, share: string, path: string)
    requires Plain(server) && Plain(share)
    ensures ParseUncPath("\\\\" + server + "\\" + share + "\\" + path) ==
            Ok(SmbTarget("", server, "/" + share + "/" + Normalize(path)))
  {
    var rest := share + "\\" + path;
    SingleSeparatorPath("", "", server, rest);
    assert "" + "\\" + "" + "\\" + server + "\\" + rest == "\\\\" + server + "\\" + share + "\\" + path;
    NormalizeAppend(share + "\\", path);
    NormalizeAppend(share, "\\");
    NormalizePlain(share);
    assert Normalize(rest) == share + "/" + Normalize(path);
    assert "/" + Normalize(rest) == "/" + share + "/" + Normalize(path);
  }

  /** s.lstrip('/'): the leading slashes removed. */
  function StripSlashes(s: string): (r: string)
    ensures |r| <= |s| && r == s[|s| - |r|..]
    ensures forall i :: 0 <= i < |s| - |r| ==> s[i] == '/'
    ensures r == [] || r[0] != '/'
    decreases |s|
  {
    if s != [] && s[0] == '/' then StripSlashes(s[1..]) else s
  }

  /** The split a UNC path needs: the leading separators, two in
      \\server\share\file.dat, are skipped, and the next two fields are the
      server and the share. */
  function ParseUncPathCorrected(smbPath: string): (r: Result<SmbTarget, UncError>)
    ensures r.Err? ==> r == Err(UnpackError)
    ensures r.Ok? ==> r.value.server != [] && '/' !in r.value.server && '/' !in r.value.sharePath
  {
    var s := StripSlashes(Normalize(smbPath));
    var fields := Split(s, 2);
    assert |fields| >= 3 ==> fields[0] == s[..FirstIndex(s, '/')];
    if |fields| < 3 then Err(UnpackError)
    else Ok(SmbTarget(fields[0], fields[1], "/" + fields[2]))
  }

  /** The corrected split refuses exactly the paths that, past their
      leading separators, hold fewer than two more. */
  lemma CorrectedRefusesFewSeparators(smbPath: string)
    ensures ParseUncPathCorrected(smbPath).Err? <==> Slashes(StripSlashes(Normalize(smbPath))) < 2
  {
    SplitCount(StripSlashes(Normalize(smbPath)), 2);
  }

  lemma {:induction false} StripLeading(lead: string, rest: string)
    requires forall i :: 0 <= i < |lead| ==> lead[i] == '/'
    requires rest == [] || rest[0] != '/'
    ensures StripSlashes(lead + rest) == rest
    decreases |lead|
  {
    if lead != [] {
      assert (lead + rest)[1..] == lead[1..] + rest;
      StripLeading(lead[1..], rest);
    } else {
      assert lead + rest == rest;
    }
  }

  /** Normalizing \\server\share\path and stripping the leading separators
      leaves server/share/path with the path's own separators normalized. */
  lemma NormalizedTarget(lead: string, server: string, share: string, path: string)
    requires forall i :: 0 <= i < |lead| ==> lead[i] == '\\' || lead[i] == '/'
    requires Plain(server) && server != [] && Plain(share)
    ensures StripSlashes(Normalize(lead + server + "\\" + share + "\\" + path)) ==
            server + "/" + (share + "/" + Normalize(path))
  {
    var body := server + "\\" + share + "\\" + path;
    assert lead + server + "\\" + share + "\\" + path == lead + body;
    NormalizeAppend(lead, body);
    NormalizeAppend(server + "\\" + share + "\\", path);
    NormalizeAppend(server + "\\" + share, "\\");
    NormalizeAppend(server + "\\", share);
    NormalizeAppend(server, "\\");
    NormalizePlain(server);
    NormalizePlain(share);
    assert Normalize(body) == server + "/" + (share + "/" + Normalize(path));
    assert Normalize(body)[0] == server[0];
    StripLeading(Normalize(lead), Normalize(body));
  }

  /** The corrected split reads \\server\share\path (and the same with any
      run of leading separators) as server, share and /path. */
  lemma CorrectedRoundTrip(lead: string, server: string, share: string, path: string)
    requires forall i :: 0 <= i < |lead| ==> lead[i] == '\\' || lead[i] == '/'
    requires Plain(server) && server != [] && Plain(share)
    ensures ParseUncPathCorrected(lead + server + "\\" + share + "\\" + path) ==
            Ok(SmbTarget(server, share, "/" + Normalize(path)))
  {
    NormalizedTarget(lead, server, share, path);
    CorrectedFields(lead + server + "\\" + share + "\\" + path, server, share, Normalize(path));
  }

  /** A path that strips to server/share/rest is read as those three. */
  lemma CorrectedFields(smbPath: string, server: string, share: string, rest: string)
    requires StripSlashes(Normalize(smbPath)) == server + "/" + (share + "/" + rest)
    requires '/' !in server && '/' !in share
    ensures ParseUncPathCorrected(smbPath) == Ok(SmbTarget(server, share, "/" + rest))
  {
    SplitAtFirst(server, share + "/" + rest, 2);
    SplitAtFirst(share, rest, 1);
    SplitAlone(rest, 0);
  }
}
