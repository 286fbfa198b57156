/** `SignUpDto` (backend/src/auth/dto/signup.dto.ts): three required string
    fields with length bounds, and nothing else. */
module SignUpDto {
  import opened ClassValidator
  import PasswordValidator

  const SignUpSchema: seq<Property> := [
    Property("userId", false, [IsString, IsNotEmpty, MinLength(4), MaxLength(20)]),
    Property("password", false, [IsString, IsNotEmpty, MinLength(6), MaxLength(20)]),
    Property("nickname", false, [IsString, IsNotEmpty, MinLength(2), MaxLength(20)])
  ]

  function SignUpBody(userId: string, password: string, nickname: string): Body {
    map["userId" := JString(userId), "password" := JString(password), "nickname" := JString(nickname)]
  }

  /** The server accepts a sign-up body exactly when it has only the three declared
      fields, all strings: a 4-20 character userId, a 6-20 character password and a
      2-20 character nickname. */
  lemma SignUpAcceptedIff(body: Body)
    ensures Accepts(SignUpSchema, body)
        <==> body.Keys <= {"userId", "password", "nickname"}
             && StringOfLength(body, "userId", 4, 20)
             && StringOfLength(body, "password", 6, 20)
             && StringOfLength(body, "nickname", 2, 20)
  {
    AcceptsIff(SignUpSchema, body);
    var u, pw, n := SignUpSchema[0], SignUpSchema[1], SignUpSchema[2];
    assert DeclaredNames(SignUpSchema) == {"userId", "password", "nickname"} by {
      assert u in SignUpSchema && pw in SignUpSchema && n in SignUpSchema;
    }
    if Accepts(SignUpSchema, body) {
      assert u in SignUpSchema && IsString in u.constraints && MinLength(4) in u.constraints && MaxLength(20) in u.constraints;
      assert pw in SignUpSchema && IsString in pw.constraints && MinLength(6) in pw.constraints && MaxLength(20) in pw.constraints;
      assert n in SignUpSchema && IsString in n.constraints && MinLength(2) in n.constraints && MaxLength(20) in n.constraints;
      assert Holds(IsString, Lookup(body, "userId")) && Holds(IsString, Lookup(body, "password"));
    }
  }

  /** The client and server password rules disagree: a 21-character password passes
      the client policy and is rejected by the server, and a 6-character one is
      accepted by the server although the client calls it too short. */
  lemma ClientAndServerPasswordRulesDisagree()
    ensures PasswordValidator.ViolatedRules("abcdefghijklmnopqr1!x") == []
    ensures !Accepts(SignUpSchema, SignUpBody("alice", "abcdefghijklmnopqr1!x", "Alice"))
    ensures PasswordValidator.ViolatedRules("ab1!cd") == [PasswordValidator.TooShort]
    ensures Accepts(SignUpSchema, SignUpBody("alice", "ab1!cd", "Alice"))
  {
    var long, short := "abcdefghijklmnopqr1!x", "ab1!cd";
    PasswordValidator.ViolatedRulesUnfold(long);
    PasswordValidator.ViolatedRulesUnfold(short);
    assert PasswordValidator.IsLowerAscii(long[0]) && PasswordValidator.IsAsciiDigit(long[18]);
    assert PasswordValidator.IsSymbol(long[19]);
    assert PasswordValidator.IsLowerAscii(short[0]) && PasswordValidator.IsAsciiDigit(short[2]);
    assert PasswordValidator.IsSymbol(short[3]);
    SignUpAcceptedIff(SignUpBody("alice", long, "Alice"));
    SignUpAcceptedIff(SignUpBody("alice", short, "Alice"));
  }
}
