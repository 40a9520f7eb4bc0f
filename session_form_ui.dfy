/** The session creation form (packages/ui/src/terminal/session_manager.rs): the
    task and directory fields, the validation of a create request, the name
    derived from the task, and the default-directory effect. Rendering is
    left out. */
module SessionFormUi {
  import opened Wrappers
  import opened RustString

  /** Longest session name taken from the task, in bytes, before "..." is
      added. */
  const NameCutBytes: nat := 50

  const TaskRequiredMessage: string := "Task description is required"
  const DirectoryRequiredMessage: string := "Please select a directory"

  // ---------------------------------------------------------------------------
  // The session name

  lemma ByteLenOfPrefixes(s: string, i: nat, j: nat)
    requires i <= j <= |s|
    ensures ByteLen(s[..i]) + (j - i) <= ByteLen(s[..j])
  {
    assert s[..j] == s[..i] + s[i..j];
    ByteLenAppend(s[..i], s[i..j]);
  }

  /** The name as the code derives it: a task over 50 bytes is cut with
      `&task[..50]`, which panics (None here) when byte 50 falls inside a
      character. */
  function SessionNameAsWritten(task: string): (r: Option<string>)
    ensures ByteLen(task) <= NameCutBytes ==> r == Some(task)
    ensures ByteLen(task) > NameCutBytes ==>
              (r.None? <==> forall k :: 0 <= k <= |task| ==> ByteLen(task[..k]) != NameCutBytes)
    ensures ByteLen(task) > NameCutBytes && r.Some? ==>
              exists k :: 0 <= k <= |task| && ByteLen(task[..k]) == NameCutBytes && r.value == task[..k] + "..."
  {
    if ByteLen(task) > NameCutBytes then
      match BytePrefix(task, NameCutBytes)
      case None => None
      case Some(p) =>
        assert p == task[..|p|];
        Some(p + "...")
    else Some(task)
  }

  /** A task of 49 ASCII letters and one two-byte character is 51 bytes long,
      and byte 50 falls inside its last character: the code panics. */
  lemma SessionNameAsWrittenPanics()
    ensures SessionNameAsWritten(seq(49, _ => 'a') + "\U{E9}") == None
  {
    var a := seq(49, _ => 'a');
    var task := a + "\U{E9}";
    AsciiByteLen(a);
    ByteLenAppend(a, "\U{E9}");
    assert ByteLen(task) == 51;
    forall k | 0 <= k <= |task| ensures ByteLen(task[..k]) != NameCutBytes {
      if k < |task| {
        assert task[..k] == a[..k];
        assert IsAscii(a[..k]);
        AsciiByteLen(a[..k]);
      } else {
        assert task[..k] == task;
      }
    }
  }

  /** The longest prefix of `s` whose encoding fits in `n` bytes. */
  function FloorPrefix(s: string, n: nat): (r: string)
    ensures r <= s && ByteLen(r) <= n
    ensures r == s || ByteLen(s[..|r| + 1]) > n
  {
    if |s| == 0 || Utf8Len(s[0]) > n then
      assert |s| > 0 ==> s[..1][0] == s[0];
      ""
    else
      var p := FloorPrefix(s[1..], n - Utf8Len(s[0]));
      var r := [s[0]] + p;
      assert r[0] == s[0] && r[1..] == p;
      assert r != s ==> s[..|r| + 1][0] == s[0] && s[..|r| + 1][1..] == s[1..][..|p| + 1];
      r
  }

  /** Where `&s[..n]` does not panic, it is the longest prefix fitting in `n`
      bytes. */
  lemma BytePrefixIsFloorPrefix(s: string, n: nat)
    requires BytePrefix(s, n).Some?
    ensures FloorPrefix(s, n) == BytePrefix(s, n).value
  {
    var p := BytePrefix(s, n).value;
    var r := FloorPrefix(s, n);
    assert p == s[..|p|] && r == s[..|r|];
    if |r| < |p| {
      // the next character after `r` still fits, against maximality
      ByteLenOfPrefixes(s, |r| + 1, |p|);
    }
  }

  /** The name the form gives a session: the task itself when it fits in 50
      bytes, otherwise as much of it as fits in 50 bytes followed by "...".
      It never exceeds 53 bytes. */
  function SessionName(task: string): (name: string)
    ensures ByteLen(task) <= NameCutBytes ==> name == task
    ensures ByteLen(task) > NameCutBytes ==> name == FloorPrefix(task, NameCutBytes) + "..."
    ensures ByteLen(name) <= NameCutBytes + 3
    ensures task != "" ==> name != ""
  {
    if ByteLen(task) > NameCutBytes then
      var p := FloorPrefix(task, NameCutBytes);
      ByteLenAppend(p, "...");
      assert ByteLen("...") == 3 by { AsciiByteLen("..."); }
      p + "..."
    else task
  }

  /** The corrected name agrees with the code on every task where the code
      does not panic. */
  lemma SessionNameAgreesWithAsWritten(task: string)
    requires SessionNameAsWritten(task).Some?
    ensures SessionNameAsWritten(task) == Some(SessionName(task))
  {
    if ByteLen(task) > NameCutBytes {
      BytePrefixIsFloorPrefix(task, NameCutBytes);
    }
  }

  /** An ASCII task never panics, and a long one is cut to exactly its first
      50 characters followed by "...". */
  lemma AsciiSessionName(task: string)
    requires IsAscii(task)
    ensures SessionNameAsWritten(task) == Some(SessionName(task))
    ensures |task| > NameCutBytes ==> SessionName(task) == task[..NameCutBytes] + "..."
    ensures |task| <= NameCutBytes ==> SessionName(task) == task
  {
    AsciiByteLen(task);
    if |task| > NameCutBytes {
      var q := task[..NameCutBytes];
      assert IsAscii(q);
      AsciiByteLen(q);
      assert BytePrefix(task, NameCutBytes).Some?;
      assert BytePrefix(task, NameCutBytes).value == q by {
        var p := BytePrefix(task, NameCutBytes).value;
        assert p == task[..|p|];
        assert IsAscii(p);
        AsciiByteLen(p);
      }
      SessionNameAgreesWithAsWritten(task);
      BytePrefixIsFloorPrefix(task, NameCutBytes);
    }
  }

  // ---------------------------------------------------------------------------
  // The form

  /** One call of `on_create`: (name, directory, command). */
  datatype CreateRequest = CreateRequest(name: string, directory: string, command: string)

  class SessionForm {
    /** The `task_description`, `selected_directory` and `error_message`
        signals. */
    var taskDescription: string
    var selectedDirectory: string
    var errorMessage: Option<string>
    /** The calls made to `on_create`, in order. */
    var requests: seq<CreateRequest>
    /** Set when the closure has panicked at `&task[..50]`. */
    var panicked: bool

    /** Every request made carries a task, a directory and a name of at most
        53 bytes. */
    ghost predicate Valid()
      reads this
    {
      forall i :: 0 <= i < |requests| ==>
        requests[i].command != "" && requests[i].directory != "" && requests[i].name != "" &&
        ByteLen(requests[i].name) <= NameCutBytes + 3
    }

    constructor ()
      ensures taskDescription == "" && selectedDirectory == "" && errorMessage == None && requests == []
      ensures !panicked && Valid()
    {
      taskDescription := "";
      selectedDirectory := "";
      errorMessage := None;
      requests := [];
      panicked := false;
    }

    /** The `create_session` closure: an empty task is refused first, then an
        empty directory. Otherwise the error is cleared and the name is
        derived as the code derives it: where `&task[..50]` panics, the
        closure stops there, so `on_create` is not called and the task is
        kept; else `on_create` receives the name, the directory and the whole
        task, and the task field is reset. The directory is kept either way. */
    method CreateSession()
      requires Valid()
      modifies this
      ensures Valid() && selectedDirectory == old(selectedDirectory)
      ensures old(taskDescription) == "" ==>
                && errorMessage == Some(TaskRequiredMessage) && taskDescription == old(taskDescription)
                && requests == old(requests) && panicked == old(panicked)
      ensures old(taskDescription) != "" && old(selectedDirectory) == "" ==>
                && errorMessage == Some(DirectoryRequiredMessage) && taskDescription == old(taskDescription)
                && requests == old(requests) && panicked == old(panicked)
      // the slice panics after the error has been cleared
      ensures old(taskDescription) != "" && old(selectedDirectory) != "" && SessionNameAsWritten(old(taskDescription)).None? ==>
                && errorMessage == None && panicked
                && taskDescription == old(taskDescription) && requests == old(requests)
      ensures old(taskDescription) != "" && old(selectedDirectory) != "" && SessionNameAsWritten(old(taskDescription)).Some? ==>
                && errorMessage == None && panicked == old(panicked)
                && requests == old(requests) + [CreateRequest(SessionNameAsWritten(old(taskDescription)).value, old(selectedDirectory), old(taskDescription))]
                && taskDescription == ""
      // where the code does not panic, its name is the corrected one
      ensures old(taskDescription) != "" && old(selectedDirectory) != "" && SessionNameAsWritten(old(taskDescription)).Some? ==>
                requests[|requests| - 1].name == SessionName(old(taskDescription))
    {
      var task := taskDescription;
      var dir := selectedDirectory;
      if task == "" {
        errorMessage := Some(TaskRequiredMessage);
        return;
      }
      if dir == "" {
        errorMessage := Some(DirectoryRequiredMessage);
        return;
      }
      errorMessage := None;
      var sessionName := SessionNameAsWritten(task);
      if sessionName.None? {
        panicked := true;
        return;
      }
      SessionNameAgreesWithAsWritten(task);
      requests := requests + [CreateRequest(sessionName.value, dir, task)];
      taskDescription := "";
    }

    /** The effect run when the allowed directories change: select the first
        one, but only when there is one and nothing is selected yet. */
    method DefaultDirectoryEffect(allowedDirectories: seq<string>)
      modifies this`selectedDirectory
      ensures |allowedDirectories| > 0 && old(selectedDirectory) == "" ==> selectedDirectory == allowedDirectories[0]
      ensures |allowedDirectories| == 0 || old(selectedDirectory) != "" ==> selectedDirectory == old(selectedDirectory)
    {
      if |allowedDirectories| > 0 && selectedDirectory == "" {
        selectedDirectory := allowedDirectories[0];
      }
    }
  }
}
