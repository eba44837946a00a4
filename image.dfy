/**
  Building the bytecode-image request of `bpflet image pull` from its command
  line arguments (`TryFrom<&PullBytecodeArgs> for BytecodeImage`,
  bpflet/src/cli/image.rs). Three conversions come from libraries and are
  parameters here: the pull-policy parse (with its conversion to the wire
  integer), standard base64 decoding with padding (section 4 of RFC 4648) and
  the UTF-8 check of `String::from_utf8`.
*/
module CliImage {
  import opened Wrappers

  type Byte = bv8

  datatype PullBytecodeArgs = PullBytecodeArgs(imageUrl: string, pullPolicy: string, registryAuth: Option<string>)

  datatype BytecodeImage = BytecodeImage(url: string, imagePullPolicy: int,
                                         username: Option<string>, password: Option<string>)

  /**
    Why the conversion fails. `MissingColon` stands for the panic of `unwrap()`
    on decoded credentials that hold no ':'.
  */
  datatype ConversionError = InvalidPullPolicy | InvalidBase64 | InvalidUtf8 | MissingColon

  /** Rust's `s.split_once(sep)`: the text before the first `sep` and the text after it. */
  function SplitOnce(s: string, sep: char): (r: Option<(string, string)>)
    ensures r.None? <==> sep !in s
    ensures r.Some? ==> s == r.value.0 + [sep] + r.value.1 && sep !in r.value.0
    decreases |s|
  {
    if s == [] then None
    else if s[0] == sep then Some(([], s[1..]))
    else
      match SplitOnce(s[1..], sep)
      case None => None
      case Some((before, after)) => Some(([s[0]] + before, after))
  }

  /** The split is at the first separator, so the text after it may hold more. */
  lemma {:induction false} SplitOnceRoundTrip(before: string, after: string, sep: char)
    requires sep !in before
    ensures SplitOnce(before + [sep] + after, sep) == Some((before, after))
    decreases |before|
  {
    var s := before + [sep] + after;
    if before == [] {
      assert s == [sep] + after;
    } else {
      assert sep !in before[1..] by {
        assert forall x :: x in before[1..] ==> x in before;
      }
      SplitOnceRoundTrip(before[1..], after, sep);
      assert s[1..] == before[1..] + [sep] + after;
      assert [before[0]] + before[1..] == before;
    }
  }

  /** The `Some(a)` arm: decode, check UTF-8, and split at the first ':'. */
  function DecodeCredentials(auth: string, base64Decode: string -> Option<seq<Byte>>,
                             fromUtf8: seq<Byte> -> Option<string>): (r: Result<(string, string), ConversionError>)
    ensures base64Decode(auth).None? ==> r == Err(InvalidBase64)
    ensures base64Decode(auth).Some? && fromUtf8(base64Decode(auth).value).None? ==> r == Err(InvalidUtf8)
    ensures base64Decode(auth).Some? && fromUtf8(base64Decode(auth).value).Some? ==>
              var text := fromUtf8(base64Decode(auth).value).value;
              && (r == Err(MissingColon) <==> ':' !in text)
              && (r.Ok? ==> text == r.value.0 + ":" + r.value.1 && ':' !in r.value.0)
  {
    match base64Decode(auth)
    case None => Err(InvalidBase64)
    case Some(raw) =>
      match fromUtf8(raw)
      case None => Err(InvalidUtf8)
      case Some(text) =>
        match SplitOnce(text, ':')
        case None => Err(MissingColon)
        case Some((username, password)) => Ok((username, password))
  }

  /** `BytecodeImage::try_from(&PullBytecodeArgs)`. */
  function BytecodeImageFrom(args: PullBytecodeArgs, parsePolicy: string -> Option<int>,
                             base64Decode: string -> Option<seq<Byte>>,
                             fromUtf8: seq<Byte> -> Option<string>): (r: Result<BytecodeImage, ConversionError>)
    ensures parsePolicy(args.pullPolicy).None? ==> r == Err(InvalidPullPolicy)
    ensures r.Ok? ==> && parsePolicy(args.pullPolicy) == Some(r.value.imagePullPolicy)
                      && r.value.url == args.imageUrl
                      && r.value.username.Some? && r.value.password.Some?
    ensures parsePolicy(args.pullPolicy).Some? && args.registryAuth.None? ==>
              r.Ok? && r.value.username == Some("") && r.value.password == Some("")
    ensures parsePolicy(args.pullPolicy).Some? && args.registryAuth.Some? ==>
              var creds := DecodeCredentials(args.registryAuth.value, base64Decode, fromUtf8);
              && (r.Err? <==> creds.Err?)
              && (r.Err? ==> r.error == creds.error)
              && (r.Ok? ==> r.value.username == Some(creds.value.0) && r.value.password == Some(creds.value.1))
  {
    match parsePolicy(args.pullPolicy)
    case None => Err(InvalidPullPolicy)
    case Some(policy) =>
      var creds := match args.registryAuth
        case Some(a) => DecodeCredentials(a, base64Decode, fromUtf8)
        case None => Ok(("", ""));
      match creds
      case Err(e) => Err(e)
      case Ok((username, password)) =>
        Ok(BytecodeImage(args.imageUrl, policy, Some(username), Some(password)))
  }

  /**
    Credentials encoded the way a registry client encodes them come back intact:
    when the auth string is the base64 of the UTF-8 of `user + ":" + pass` and
    `user` has no ':', the request carries exactly `user` and `pass`.
  */
  lemma CredentialsRoundTrip(args: PullBytecodeArgs, parsePolicy: string -> Option<int>,
                             base64Encode: seq<Byte> -> string, base64Decode: string -> Option<seq<Byte>>,
                             utf8Encode: string -> seq<Byte>, fromUtf8: seq<Byte> -> Option<string>,
                             user: string, pass: string)
    requires forall b :: base64Decode(base64Encode(b)) == Some(b)
    requires forall t :: fromUtf8(utf8Encode(t)) == Some(t)
    requires parsePolicy(args.pullPolicy).Some?
    requires ':' !in user
    requires args.registryAuth == Some(base64Encode(utf8Encode(user + ":" + pass)))
    ensures BytecodeImageFrom(args, parsePolicy, base64Decode, fromUtf8) ==
              Ok(BytecodeImage(args.imageUrl, parsePolicy(args.pullPolicy).value, Some(user), Some(pass)))
  {
    SplitOnceRoundTrip(user, pass, ':');
  }
}
