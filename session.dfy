/** The process-wide session state and the three things that change it: the
    connection probe (`initialize_ollama_client`), `update_connection`, the
    sidebar's Connect handler, and `generate_ollama_response`. The model server
    is an oracle that answers a probe of a host/model pair and, for a request,
    a chunk stream that may break off. */
module Session {
  import opened Wrappers
  import opened Streaming

  const DEFAULT_HOST: string := "http://localhost:11434"
  const DEFAULT_MODEL: string := "llama3.2"
  const NOT_CONNECTED: string := "Not Connected"
  const CONNECTED: string := "Connected"
  const FAILED_PREFIX: string := "Connection Failed: "
  const ERROR_PREFIX: string := "Unexpected error: "

  /** A host/model pair, as stored in `last_successful_config`. */
  datatype Config = Config(host: string, model: string)

  /** A client object, bound to the host it was created for. */
  datatype ClientHandle = ClientHandle(host: string)

  /** What `Client(host=...)` followed by `show(model)` did: succeeded, or
      raised an exception whose text is `message`. */
  datatype Probe = ProbeOk | ProbeFailed(message: string)

  /** The model server, as far as probing goes. */
  type Server = Config -> Probe

  /** The arguments of one `generate` call on the stored client. */
  datatype Request = Request(host: string, model: string, prompt: string, system: Option<string>)

  /** The chunks the server streamed back, and whether the stream ended
      normally or an exception interrupted it after those chunks. */
  datatype Stream = Finished(chunks: seq<Chunk>) | Broken(chunks: seq<Chunk>)

  /** How a call of `generate_ollama_response` ended. The Python function
      returns `None` in every case; `Completed` carries its local
      `full_response`, which is also the last value shown when anything was. */
  datatype Generation = PromptMissing | Completed(text: string) | Interrupted

  /** `initialize_ollama_client(host, model)`: `(True, None)` when the probe
      succeeds, `(False, "Unexpected error: " + message)` when it raises. */
  function InitializeClient(server: Server, host: string, model: string): (r: (bool, Option<string>))
    ensures r.0 <==> r.1 == None
    ensures r.0 <==> server(Config(host, model)) == ProbeOk
    ensures !r.0 ==> r.1 == Some(ERROR_PREFIX + server(Config(host, model)).message)
  {
    match server(Config(host, model))
    case ProbeOk => (true, None)
    case ProbeFailed(message) => (false, Some(ERROR_PREFIX + message))
  }

  /** The status shown after a failed probe; never mistaken for "Connected". */
  function FailedStatus(error: string): (s: string)
    ensures s != CONNECTED && s != NOT_CONNECTED
    ensures |s| >= |FAILED_PREFIX| && s[..|FAILED_PREFIX|] == FAILED_PREFIX
  {
    var s := FAILED_PREFIX + error;
    assert s[7] != CONNECTED[7] && s[0] != NOT_CONNECTED[0];
    assert s[..|FAILED_PREFIX|] == FAILED_PREFIX;
    s
  }

  /** `system_prompt if system_prompt else None` */
  function SystemArgument(systemPrompt: string): (r: Option<string>)
    ensures r == None <==> systemPrompt == ""
    ensures r != None ==> r.value == systemPrompt
  {
    if systemPrompt == "" then None else Some(systemPrompt)
  }

  class SessionState {
    var host: string
    var model: string
    var client: Option<ClientHandle>
    var status: string
    var lastSuccessfulConfig: Option<Config>
    /** Every host/model pair probed so far, oldest first. */
    ghost var probes: seq<Config>

    /** A client is stored exactly when the status reads "Connected", and then
        it is bound to the current host, and the current pair is the last one
        that connected. */
    ghost predicate Valid()
      reads this
    {
      (client != None <==> status == CONNECTED) &&
      (client != None ==>
         client.value == ClientHandle(host) && lastSuccessfulConfig == Some(Config(host, model)))
    }

    /** The state says what a probe of the current pair answered: connected,
        bound and remembered on success; disconnected with the probe's error,
        the remembered pair untouched, on failure. */
    ghost predicate Reflects(p: Probe, priorLast: Option<Config>)
      reads this
    {
      match p
      case ProbeOk =>
        client == Some(ClientHandle(host)) && status == CONNECTED &&
        lastSuccessfulConfig == Some(Config(host, model))
      case ProbeFailed(message) =>
        client == None && status == FailedStatus(ERROR_PREFIX + message) &&
        lastSuccessfulConfig == priorLast
    }

    /** The session state a fresh browser session starts with. */
    constructor ()
      ensures Valid()
      ensures host == DEFAULT_HOST && model == DEFAULT_MODEL
      ensures client == None && status == NOT_CONNECTED && lastSuccessfulConfig == None
      ensures probes == []
    {
      host := DEFAULT_HOST;
      model := DEFAULT_MODEL;
      client := None;
      status := NOT_CONNECTED;
      lastSuccessfulConfig := None;
      probes := [];
    }

    /** `update_connection()`: probes the CURRENT host and model once and
        records the answer; whatever state it starts from, it leaves a valid
        one. */
    method UpdateConnection(server: Server)
      modifies this
      ensures Valid()
      ensures host == old(host) && model == old(model)
      ensures probes == old(probes) + [Config(host, model)]
      ensures Reflects(server(Config(host, model)), old(lastSuccessfulConfig))
    {
      var (success, error) := InitializeClient(server, host, model);
      probes := probes + [Config(host, model)];
      if success {
        client := Some(ClientHandle(host));
        status := CONNECTED;
        lastSuccessfulConfig := Some(Config(host, model));
      } else {
        client := None;
        status := FailedStatus(error.value);
      }
    }

    /** The Connect button: store the typed host and model, then probe them. */
    method Connect(newHost: string, newModel: string, server: Server)
      modifies this
      ensures Valid()
      ensures host == newHost && model == newModel
      ensures probes == old(probes) + [Config(newHost, newModel)]
      ensures Reflects(server(Config(newHost, newModel)), old(lastSuccessfulConfig))
    {
      host := newHost;
      model := newModel;
      UpdateConnection(server);
    }

    /** `generate_ollama_response(user_prompt, system_prompt)`, with `stream`
        the server's answer to the request. Returns the request issued (at most
        one) and the values shown. An empty prompt changes nothing and issues
        nothing; an exception, including the one a missing client raises,
        triggers exactly one reconnect of the current host and model, and the
        request is not retried. */
    method GenerateResponse(userPrompt: string, systemPrompt: string, stream: Stream, server: Server)
      returns (request: Option<Request>, shown: seq<string>, result: Generation)
      requires Valid()
      modifies this
      ensures Valid()
      ensures userPrompt == "" ==> result == PromptMissing && request == None && shown == []
      ensures request != None <==> userPrompt != "" && old(client) != None
      ensures request != None ==>
        request.value == Request(old(host), old(model), userPrompt, SystemArgument(systemPrompt))
      ensures shown == if request != None then Displayed(stream.chunks) else []
      ensures result.Completed? <==> request != None && stream.Finished?
      ensures result.Completed? ==> result.text == ResponseText(stream.chunks)
      ensures result.Interrupted? <==> userPrompt != "" && (old(client) == None || stream.Broken?)
      ensures !result.Interrupted? ==> unchanged(this)
      ensures result.Interrupted? ==>
        host == old(host) && model == old(model) &&
        probes == old(probes) + [Config(host, model)] &&
        Reflects(server(Config(host, model)), old(lastSuccessfulConfig))
      ensures old(client) != None && result.Interrupted? ==>
        probes == old(probes) + [old(lastSuccessfulConfig).value]
    {
      if userPrompt == "" {
        return None, [], PromptMissing;
      }
      if client == None {
        // Calling `generate` on None raises inside the try block.
        UpdateConnection(server);
        return None, [], Interrupted;
      }
      request := Some(Request(client.value.host, model, userPrompt, SystemArgument(systemPrompt)));
      var full;
      full, shown := AccumulateStream(stream.chunks);
      if stream.Broken? {
        UpdateConnection(server);
        result := Interrupted;
      } else {
        result := Completed(full);
      }
    }
  }

  /** A reconnect after a failed generation probes the pair currently entered,
      not the last pair that connected. The two differ only when no client is
      stored: after connecting to `good` and then failing to connect to `bad`,
      a generation called directly probes `bad` again while `good` stays
      remembered. */
  method ReconnectUsesCurrentPair(good: Config, bad: Config, server: Server, prompt: string)
    returns (remembered: Option<Config>, status: string, ghost probed: seq<Config>)
    requires server(good) == ProbeOk && server(bad).ProbeFailed?
    requires prompt != ""
    ensures probed == [good, bad, bad]
    ensures remembered == Some(good)
    ensures status == FailedStatus(ERROR_PREFIX + server(bad).message)
  {
    var session := new SessionState();
    session.Connect(good.host, good.model, server);
    session.Connect(bad.host, bad.model, server);
    var request, shown, result := session.GenerateResponse(prompt, "", Finished([]), server);
    assert request == None && result == Interrupted;
    remembered, status, probed := session.lastSuccessfulConfig, session.status, session.probes;
  }
}
