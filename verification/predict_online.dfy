/** The guards `MyViewModel.predictOnline` runs before it sends an image to
    the remote detector. The request itself, and what it does to the state
    when it completes, is network code and is not modelled. */
module PredictOnline {
  import opened Wrappers
  import opened Ipv4

  const NoImage: string := "No image selected!"
  const NoIpAddress: string := "Please set the API IP Address first!"
  const BadIpAddress: string := "Invalid IP address format"

  datatype DetectionMode = Local | Remote

  /** The parts of the view model's state the guards read and write. The
      image URI is kept as a string. */
  datatype VmState = VmState(
    detectionMode: DetectionMode,
    errMsg: Option<string>,
    imageUri: Option<string>,
    ipAddress: Option<string>)

  /** What `predictOnline` leads to: a request to the given base URL, or
      nothing. */
  datatype Outcome = Launch(baseUrl: string) | Stopped

  /** The base URL of the remote detector at `ip`. */
  function BaseUrl(ip: string): (url: string)
  {
    "http://" + ip + ":5000"
  }

  /** `predictOnline`: the mode becomes Remote first; then each missing or
      malformed input stops the call with its own message, in this order. */
  function Predict(s: VmState): (r: (VmState, Outcome))
    ensures r.0.detectionMode == Remote
    ensures r.0.imageUri == s.imageUri && r.0.ipAddress == s.ipAddress
    ensures r.1.Launch? <==> s.imageUri != None && s.ipAddress != None && RegexValid(s.ipAddress.value)
    ensures r.1.Launch? ==> r.0.errMsg == s.errMsg && r.1.baseUrl == BaseUrl(s.ipAddress.value)
    ensures s.imageUri == None ==> r.0.errMsg == Some(NoImage)
    ensures s.imageUri != None && s.ipAddress == None ==> r.0.errMsg == Some(NoIpAddress)
    ensures s.imageUri != None && s.ipAddress != None && !RegexValid(s.ipAddress.value) ==>
      r.0.errMsg == Some(BadIpAddress)
  {
    var s1 := s.(detectionMode := Remote);
    if s1.imageUri == None then (s1.(errMsg := Some(NoImage)), Stopped)
    else if s1.ipAddress == None then (s1.(errMsg := Some(NoIpAddress)), Stopped)
    else if !RegexValid(s1.ipAddress.value) then (s1.(errMsg := Some(BadIpAddress)), Stopped)
    else (s1, Launch(BaseUrl(s1.ipAddress.value)))
  }

  /** The address can be read back from the URL the request goes to. */
  lemma BaseUrlRecoversAddress(ip: string)
    ensures |BaseUrl(ip)| == |ip| + 12
    ensures BaseUrl(ip)[7..|BaseUrl(ip)| - 5] == ip
  {
    var u := BaseUrl(ip);
    assert u == "http://" + ip + ":5000";
    assert u[7..|u| - 5] == ip;
  }

  /** A launched request always targets an address the split validator of
      `helpers.kt` accepts too. */
  lemma LaunchedAddressIsSplitValid(s: VmState)
    requires Predict(s).1.Launch?
    ensures SplitParseValid(s.ipAddress.value)
  {
    RegexImpliesSplitParse(s.ipAddress.value);
  }

  /** A stopped call is repeatable: calling again changes nothing more. */
  lemma StoppedIsStable(s: VmState)
    requires Predict(s).1.Stopped?
    ensures Predict(Predict(s).0) == Predict(s)
  {
  }

  /** The message reports the first failed guard: without an image the
      address is not even looked at. */
  lemma ImageCheckedFirst(s: VmState, ip: Option<string>)
    requires s.imageUri == None
    ensures Predict(s.(ipAddress := ip)).0.errMsg == Some(NoImage)
    ensures Predict(s.(ipAddress := ip)).1 == Stopped
  {
  }

  /** An address that only the split validator accepts is still refused. */
  lemma PaddedAddressRefused(s: VmState)
    requires s.imageUri != None && s.ipAddress == Some(Address("0001", "2", "3", "4"))
    ensures Predict(s) == (s.(detectionMode := Remote, errMsg := Some(BadIpAddress)), Stopped)
  {
    PaddedPartOnlyParses();
  }
}
