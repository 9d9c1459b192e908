/**
 * The chat tab: choosing a paper by name, and one question-and-answer turn
 * over the session's transcript. The embedding service, the retrieval call and
 * the chat model are parameters.
 */
module Chat {
  import opened Wrappers
  import opened Sections
  import Records

  /** Some file in `files` carries `name`. */
  ghost predicate Named(files: seq<Records.FileRecord>, name: string) {
    exists i :: 0 <= i < |files| && files[i].fileName == name
  }

  /** `{f['file_name']: f['file_hash'] for f in files}`: later entries overwrite earlier ones. */
  function FileOptions(files: seq<Records.FileRecord>): (m: map<string, string>)
    ensures forall name :: name in m <==> Named(files, name)
  {
    if files == [] then map[]
    else
      var n := |files| - 1;
      var front := FileOptions(files[..n]);
      assert forall name :: Named(files[..n], name) ==> Named(files, name) by {
        forall name | Named(files[..n], name) ensures Named(files, name) {
          var i :| 0 <= i < n && files[..n][i].fileName == name;
          assert files[i].fileName == name;
        }
      }
      assert forall name :: Named(files, name) && name != files[n].fileName ==> Named(files[..n], name) by {
        forall name | Named(files, name) && name != files[n].fileName ensures Named(files[..n], name) {
          var i :| 0 <= i < |files| && files[i].fileName == name;
          assert i < n && files[..n][i].fileName == name;
        }
      }
      front[files[n].fileName := files[n].fileHash]
  }

  /** Each name maps to the hash of the last file listed under that name. */
  lemma {:induction false} LastFileWins(files: seq<Records.FileRecord>, i: nat)
    requires i < |files|
    requires forall j :: i < j < |files| ==> files[j].fileName != files[i].fileName
    ensures FileOptions(files)[files[i].fileName] == files[i].fileHash
    decreases |files|
  {
    var n := |files| - 1;
    if i < n {
      var front := files[..n];
      assert forall j :: 0 <= j < n ==> front[j] == files[j];
      LastFileWins(front, i);
      assert files[n].fileName != files[i].fileName;
    }
  }

  /** Who wrote a transcript entry. */
  datatype Role = User | Assistant

  /** A transcript entry `{"role": ..., "content": ...}`. */
  datatype Message = Message(role: Role, content: string)

  /** How a chat turn ends. */
  datatype TurnOutcome =
    | Answered(response: string)
    | NoRelevantSection  // "I couldn't find any relevant sections in the paper."
    | EmbeddingFailed    // "Failed to generate embedding for your question."

  /** The session's chat state: its transcript, created empty. */
  class ChatSession {
    var messages: seq<Message>

    constructor ()
      ensures messages == []
    {
      messages := [];
    }

    /**
     * One turn about the paper `selectedHash`: record the question; if its
     * embedding `queryVector` is non-empty and retrieval finds sections, ask
     * the chat model with them and record its answer.
     */
    method Turn<C>(prompt: string, selectedHash: string, queryVector: Option<Vector>,
                   retrieve: (string, Vector) -> seq<C>, chat: (string, seq<C>) -> string)
      returns (outcome: TurnOutcome)
      modifies this
      ensures !Embedded(queryVector) ==> outcome == EmbeddingFailed
      ensures Embedded(queryVector) && retrieve(selectedHash, queryVector.value) == [] ==> outcome == NoRelevantSection
      ensures Embedded(queryVector) && retrieve(selectedHash, queryVector.value) != [] ==>
                outcome == Answered(chat(prompt, retrieve(selectedHash, queryVector.value)))
      ensures messages == old(messages) + [Message(User, prompt)]
                          + (if outcome.Answered? then [Message(Assistant, outcome.response)] else [])
    {
      messages := messages + [Message(User, prompt)];
      if Embedded(queryVector) {
        var relevantChunks := retrieve(selectedHash, queryVector.value);
        if relevantChunks != [] {
          var response := chat(prompt, relevantChunks);
          messages := messages + [Message(Assistant, response)];
          outcome := Answered(response);
        } else {
          outcome := NoRelevantSection;
        }
      } else {
        outcome := EmbeddingFailed;
      }
    }
  }
}
