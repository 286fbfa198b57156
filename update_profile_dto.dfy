/** `UpdateProfileDto` (backend/src/auth/dto/update-profile.dto.ts): a required
    nickname and an optional profile image, where `null` passes validation. */
module UpdateProfileDto {
  import opened ClassValidator

  const UpdateProfileSchema: seq<Property> := [
    Property("nickname", false, [IsString, IsNotEmpty, MinLength(2), MaxLength(20)]),
    Property("profileImage", true, [IsString, MaxLength(255)])
  ]

  /** What the `profileImage` field asks of `updateProfile`. */
  datatype ImageUpdate = Omitted | SetNull | SetValue(url: string)

  function ImageUpdateOf(body: Body): ImageUpdate {
    if "profileImage" !in body then Omitted
    else match body["profileImage"]
      case JNull => SetNull
      case JString(s) => SetValue(s)
      case JOther => Omitted
  }

  /** The server accepts an update body exactly when it has no undeclared field, a
      2-20 character nickname, and a profile image that is absent, null or a string
      of at most 255 characters. */
  lemma UpdateProfileAcceptedIff(body: Body)
    ensures Accepts(UpdateProfileSchema, body)
        <==> body.Keys <= {"nickname", "profileImage"}
             && StringOfLength(body, "nickname", 2, 20)
             && ("profileImage" !in body || body["profileImage"] == JNull
                 || StringOfLength(body, "profileImage", 0, 255))
  {
    AcceptsIff(UpdateProfileSchema, body);
    var n, img := UpdateProfileSchema[0], UpdateProfileSchema[1];
    assert DeclaredNames(UpdateProfileSchema) == {"nickname", "profileImage"} by {
      assert n in UpdateProfileSchema && img in UpdateProfileSchema;
    }
    if Accepts(UpdateProfileSchema, body) {
      assert n in UpdateProfileSchema && IsString in n.constraints && MinLength(2) in n.constraints && MaxLength(20) in n.constraints;
      assert img in UpdateProfileSchema && IsString in img.constraints && MaxLength(255) in img.constraints;
      assert Holds(IsString, Lookup(body, "nickname"));
    }
  }

  /** An accepted body never carries a non-string, non-null image, so it always
      means one of the three cases `updateProfile` distinguishes; in particular an
      explicit `null` passes validation and reaches the service as a deletion. */
  lemma AcceptedImageUpdate(body: Body)
    requires Accepts(UpdateProfileSchema, body)
    ensures "profileImage" !in body ==> ImageUpdateOf(body) == Omitted
    ensures "profileImage" in body && body["profileImage"] == JNull ==> ImageUpdateOf(body) == SetNull
    ensures "profileImage" in body && body["profileImage"].JString? ==> ImageUpdateOf(body) == SetValue(body["profileImage"].s)
    ensures "profileImage" in body ==> body["profileImage"] != JOther
  {
    UpdateProfileAcceptedIff(body);
  }

  lemma NullImagePassesValidation(nickname: string)
    requires 2 <= |nickname| <= 20
    ensures Accepts(UpdateProfileSchema, map["nickname" := JString(nickname), "profileImage" := JNull])
    ensures ImageUpdateOf(map["nickname" := JString(nickname), "profileImage" := JNull]) == SetNull
  {
    UpdateProfileAcceptedIff(map["nickname" := JString(nickname), "profileImage" := JNull]);
  }
}
